/** Basic blocks and edges of core/control_flow_graph.h. */
module Blocks {
  import opened Mips
  import opened Wrappers

  datatype EdgeType = Fallthrough | BranchTaken | JumpEdge | ReturnEdge

  datatype CfgEdge = CfgEdge(fromId: nat, toId: nat, kind: EdgeType)

  /** A recovered switch: the address of its indirect jump, its default and its case targets. */
  datatype JumpTable = JumpTable(switchVram: bv32, defaultTargetVram: bv32, entries: seq<bv32>)

  datatype BasicBlock = BasicBlock(
    id: nat,
    startVram: bv32,
    endVram: bv32,
    instructions: seq<Instruction>,
    predecessors: seq<nat>,
    successors: seq<nat>,
    outgoing: seq<CfgEdge>,
    jumpTable: Option<JumpTable>)
  {
    /** The control instruction of the block: the one before a delay slot, else the last. */
    function Terminator(): Option<Instruction> {
      var n := |instructions|;
      if n == 0 then None
      else if n >= 2 && instructions[n - 2].HasDelaySlot() then Some(instructions[n - 2])
      else Some(instructions[n - 1])
    }

    predicate HasBranch() { Terminator().Some? && Terminator().value.IsBranch() }

    predicate HasReturn() { Terminator().Some? && Terminator().value.IsReturn() }

    predicate HasSwitch() { jumpTable.Some? }
  }

  /** An address as a number. */
  function Address(x: bv32): int { x as int }

  lemma AddressInjective(x: bv32, y: bv32)
    requires Address(x) == Address(y)
    ensures x == y
  {
    assert Address(x) as bv32 == x && Address(y) as bv32 == y;
  }
}
