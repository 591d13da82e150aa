/** Where basic blocks begin (core/control_flow_graph.cc, first half of Build). */
module Leaders {
  import opened Mips
  import opened Blocks
  import opened Wrappers

  /** A recognised division expansion: its instructions after the first belong to it. */
  datatype Division = Division(start: nat, end: nat)

  ghost predicate TrapInternal(divisions: seq<Division>, i: nat) {
    exists d :: d in divisions && d.start < i <= d.end
  }

  /** Position of the last instruction at an address. */
  ghost predicate LastAt(code: seq<Instruction>, vram: bv32, i: nat) {
    i < |code| && code[i].vram == vram && forall k :: i < k < |code| ==> code[k].vram != vram
  }

  // ----- The constant target of an indirect jump -----

  predicate IsAddImmediateTo(x: Instruction, reg: Register) {
    (x.opcode.Addiu? || x.opcode.Addi?) && x.rt == Some(reg)
  }

  predicate IsLuiTo(x: Instruction, reg: Register) { x.opcode.Lui? && x.rt == Some(reg) }

  function UpperHalf(imm: bv16): bv32 { (imm as bv32) << 16 }

  function HiLo(hi: bv16, lo: bv16): bv32 { UpperHalf(hi) + SignExtend(lo) }

  function BaseRegister(x: Instruction): Register { if x.rs.Some? then x.rs.value else ZERO }

  /** The immediate of the last lui to a register. */
  function LastLui(code: seq<Instruction>, reg: Register): Option<bv16> {
    if code == [] then None
    else if IsLuiTo(code[|code| - 1], reg) then Some(code[|code| - 1].immediate)
    else LastLui(code[..|code| - 1], reg)
  }

  /** The address that the last lui, or lui and addi pair, before the end of the code puts in a
      register. */
  function ConstantTarget(code: seq<Instruction>, reg: Register): Option<bv32> {
    if code == [] then None
    else
      var front, x := code[..|code| - 1], code[|code| - 1];
      if IsAddImmediateTo(x, reg) then
        var hi := LastLui(front, BaseRegister(x));
        if hi.Some? then Some(HiLo(hi.value, x.immediate)) else None
      else if IsLuiTo(x, reg) then Some(UpperHalf(x.immediate))
      else ConstantTarget(front, reg)
  }

  method FindLastLui(code: seq<Instruction>, reg: Register) returns (r: Option<bv16>)
    ensures r == LastLui(code, reg)
  {
    hide IsLuiTo;
    var i := |code|;
    assert code[..i] == code;
    while i > 0
      invariant i <= |code|
      invariant LastLui(code, reg) == LastLui(code[..i], reg)
    {
      assert code[..i][..i - 1] == code[..i - 1];
      if IsLuiTo(code[i - 1], reg) {
        return Some(code[i - 1].immediate);
      }
      i := i - 1;
    }
    r := None;
  }

  method FindConstantTarget(code: seq<Instruction>, reg: Register) returns (r: Option<bv32>)
    ensures r == ConstantTarget(code, reg)
  {
    hide IsLuiTo, IsAddImmediateTo, UpperHalf, HiLo, LastLui, BaseRegister;
    var i := |code|;
    assert code[..i] == code;
    while i > 0
      invariant i <= |code|
      invariant ConstantTarget(code, reg) == ConstantTarget(code[..i], reg)
    {
      assert code[..i][..i - 1] == code[..i - 1];
      var prev := code[i - 1];
      if IsAddImmediateTo(prev, reg) {
        var hi := FindLastLui(code[..i - 1], BaseRegister(prev));
        return if hi.Some? then Some(HiLo(hi.value, prev.immediate)) else None;
      } else if IsLuiTo(prev, reg) {
        return Some(UpperHalf(prev.immediate));
      }
      i := i - 1;
    }
    r := None;
  }

  /** Where the control instruction at position j goes, as far as the code tells. */
  function TransferTarget(code: seq<Instruction>, j: nat): Option<bv32>
    requires j < |code|
  {
    var x := code[j];
    if x.IsBranch() then Some(x.BranchTarget())
    else if x.opcode.J? then Some(x.JumpTarget())
    else if x.opcode.Jr? && x.rs.Some? && x.rs.value != RA then ConstantTarget(code[..j], x.rs.value)
    else None
  }

  // ----- Leaders -----

  /** The control instruction at j begins a block at i: where it goes, or after its delay slot. Division
      expansions neither branch nor get split. */
  ghost predicate StartsBlock(code: seq<Instruction>, divisions: seq<Division>, j: nat, i: nat) {
    && j < |code| && code[j].HasDelaySlot() && !TrapInternal(divisions, j)
    && i < |code| && !TrapInternal(divisions, i)
    && (i == j + 2 || (TransferTarget(code, j).Some? && LastAt(code, TransferTarget(code, j).value, i)))
  }

  ghost predicate TableStartsBlock(code: seq<Instruction>, t: JumpTable, i: nat) {
    LastAt(code, t.defaultTargetVram, i) || exists e :: e in t.entries && LastAt(code, e, i)
  }

  ghost predicate SomeTableStartsBlock(code: seq<Instruction>, tables: seq<JumpTable>, i: nat) {
    exists t :: t in tables && TableStartsBlock(code, t, i)
  }

  ghost predicate SomeControlStartsBlock(code: seq<Instruction>, divisions: seq<Division>, n: nat, i: nat) {
    exists j :: 0 <= j < n && StartsBlock(code, divisions, j, i)
  }

  ghost predicate IsLeader(code: seq<Instruction>, tables: seq<JumpTable>, divisions: seq<Division>, i: nat) {
    && i < |code|
    && (i == 0 || SomeTableStartsBlock(code, tables, i) || SomeControlStartsBlock(code, divisions, |code|, i))
  }

  // ----- The address index of the instructions -----

  ghost predicate Indexes(code: seq<Instruction>, index: map<int, nat>) {
    && (forall x :: x in index ==> index[x] < |code| && Address(code[index[x]].vram) == x)
    && forall i :: 0 <= i < |code| ==> Address(code[i].vram) in index && i <= index[Address(code[i].vram)]
  }

  method IndexInstructions(code: seq<Instruction>) returns (index: map<int, nat>)
    ensures Indexes(code, index)
  {
    hide Address;
    index := map[];
    for i := 0 to |code|
      invariant Indexes(code[..i], index)
    {
      index := index[Address(code[i].vram) := i];
    }
    assert code[..|code|] == code;
  }

  lemma IndexFinds(code: seq<Instruction>, index: map<int, nat>, vram: bv32, i: nat)
    requires Indexes(code, index)
    ensures LastAt(code, vram, i) <==> Address(vram) in index && index[Address(vram)] == i
  {
    hide Address;
    var x := Address(vram);
    if x in index && index[x] == i {
      AddressInjective(code[i].vram, vram);
    }
    if LastAt(code, vram, i) {
      AddressInjective(code[index[x]].vram, vram);
    }
  }

  // ----- Marking -----

  /** Marks the instruction at an address, when there is one outside division expansions. */
  method Mark(
    ghost code: seq<Instruction>, index: map<int, nat>, marks: seq<bool>, barred: set<nat>, vram: bv32)
    returns (r: seq<bool>)
    requires Indexes(code, index) && |marks| == |code|
    ensures |r| == |marks|
    ensures forall i: nat :: i < |r| ==> (r[i] <==> marks[i] || (LastAt(code, vram, i) && i !in barred))
  {
    r := marks;
    var x := Address(vram);
    hide Address;
    forall i: nat ensures LastAt(code, vram, i) <==> x in index && index[x] == i {
      IndexFinds(code, index, vram, i);
    }
    hide LastAt;
    if x in index && index[x] !in barred {
      r := r[index[x] := true];
    }
  }

  method MarkTable(ghost code: seq<Instruction>, index: map<int, nat>, marks: seq<bool>, t: JumpTable)
    returns (r: seq<bool>)
    requires Indexes(code, index) && |marks| == |code|
    ensures |r| == |marks|
    ensures forall i: nat :: i < |r| ==> (r[i] <==> marks[i] || TableStartsBlock(code, t, i))
  {
    hide LastAt, Indexes;
    r := marks;
    for k := 0 to |t.entries|
      invariant |r| == |marks|
      invariant forall i: nat :: i < |r| ==> (r[i] <==> marks[i] || exists e :: e in t.entries[..k] && LastAt(code, e, i))
    {
      r := Mark(code, index, r, {}, t.entries[k]);
    }
    r := Mark(code, index, r, {}, t.defaultTargetVram);
  }

  method MarkTables(ghost code: seq<Instruction>, index: map<int, nat>, marks: seq<bool>, tables: seq<JumpTable>)
    returns (r: seq<bool>)
    requires Indexes(code, index) && |marks| == |code|
    ensures |r| == |marks|
    ensures forall i: nat :: i < |r| ==> (r[i] <==> marks[i] || SomeTableStartsBlock(code, tables, i))
  {
    hide TableStartsBlock, Indexes;
    r := marks;
    for k := 0 to |tables|
      invariant |r| == |marks|
      invariant forall i: nat :: i < |r| ==> (r[i] <==> marks[i] || SomeTableStartsBlock(code, tables[..k], i))
    {
      r := MarkTable(code, index, r, tables[k]);
      assert tables[..k + 1] == tables[..k] + [tables[k]];
    }
    assert tables[..|tables|] == tables;
  }

  method CollectTrapInternals(divisions: seq<Division>) returns (internals: set<nat>)
    ensures forall i: nat :: i in internals <==> TrapInternal(divisions, i)
  {
    internals := {};
    for k := 0 to |divisions|
      invariant forall i: nat :: i in internals <==> TrapInternal(divisions[..k], i)
    {
      var d := divisions[k];
      var idx := d.start + 1;
      while idx <= d.end
        invariant d.start < idx
        invariant forall i: nat :: i in internals <==> TrapInternal(divisions[..k], i) || (d.start < i < idx && i <= d.end)
      {
        internals := internals + {idx};
        idx := idx + 1;
      }
      assert divisions[..k + 1] == divisions[..k] + [d];
    }
    assert divisions[..|divisions|] == divisions;
  }

  method KnownTransferTarget(code: seq<Instruction>, j: nat) returns (r: Option<bv32>)
    requires j < |code|
    ensures r == TransferTarget(code, j)
  {
    hide ConstantTarget;
    var x := code[j];
    if x.IsBranch() {
      r := Some(x.BranchTarget());
    } else if x.opcode.J? {
      r := Some(x.JumpTarget());
    } else if x.opcode.Jr? && x.rs.Some? && x.rs.value != RA {
      r := FindConstantTarget(code[..j], x.rs.value);
    } else {
      r := None;
    }
  }

  /** Marks what the control instruction at j begins. */
  method MarkControl(
    code: seq<Instruction>, ghost divisions: seq<Division>, index: map<int, nat>, marks: seq<bool>, barred: set<nat>,
    j: nat) returns (r: seq<bool>)
    requires Indexes(code, index) && |marks| == |code| && j < |code|
    requires forall i: nat :: i in barred <==> TrapInternal(divisions, i)
    ensures |r| == |marks|
    ensures forall i: nat :: i < |r| ==> (r[i] <==> marks[i] || StartsBlock(code, divisions, j, i))
  {
    hide TrapInternal, TransferTarget, LastAt, Indexes;
    r := marks;
    if code[j].HasDelaySlot() && j !in barred {
      var target := KnownTransferTarget(code, j);
      if target.Some? {
        r := Mark(code, index, r, barred, target.value);
      }
      if j + 2 < |code| && j + 2 !in barred {
        r := r[j + 2 := true];
      }
    }
  }

  /** The leaders of the code, exactly. */
  method IdentifyLeaders(code: seq<Instruction>, tables: seq<JumpTable>, divisions: seq<Division>)
    returns (marks: seq<bool>)
    requires code != []
    ensures |marks| == |code|
    ensures forall i: nat :: i < |code| ==> (marks[i] <==> IsLeader(code, tables, divisions, i))
  {
    hide SomeTableStartsBlock, StartsBlock, TrapInternal, Indexes;
    var index := IndexInstructions(code);
    marks := seq(|code|, i => i == 0);
    marks := MarkTables(code, index, marks, tables);
    var barred := CollectTrapInternals(divisions);
    for j := 0 to |code|
      invariant |marks| == |code|
      invariant forall i: nat :: i < |code| ==>
        (marks[i] <==> i == 0 || SomeTableStartsBlock(code, tables, i) || SomeControlStartsBlock(code, divisions, j, i))
    {
      marks := MarkControl(code, divisions, index, marks, barred, j);
    }
  }
}
