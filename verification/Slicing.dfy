/** Cutting the code into basic blocks at its leaders (core/control_flow_graph.cc, middle of Build). */
module Slicing {
  import opened Mips
  import opened Blocks
  import opened Leaders
  import opened Linking
  import opened Wrappers

  ghost predicate Ascending(s: seq<nat>) {
    forall i, j :: 0 <= i < j < |s| ==> s[i] < s[j]
  }

  /** starts lists the leaders of the code in order. */
  ghost predicate AllStarts(code: seq<Instruction>, tables: seq<JumpTable>, divisions: seq<Division>, starts: seq<nat>) {
    && Ascending(starts) && |starts| > 0 && starts[0] == 0
    && forall i: nat :: i in starts <==> IsLeader(code, tables, divisions, i)
  }

  ghost predicate StartsInRange(code: seq<Instruction>, starts: seq<nat>) {
    Ascending(starts) && forall k :: 0 <= k < |starts| ==> starts[k] < |code|
  }

  method CollectStarts(
    code: seq<Instruction>, ghost tables: seq<JumpTable>, ghost divisions: seq<Division>, marks: seq<bool>)
    returns (starts: seq<nat>)
    requires code != [] && |marks| == |code|
    requires forall i: nat :: i < |code| ==> (marks[i] <==> IsLeader(code, tables, divisions, i))
    ensures AllStarts(code, tables, divisions, starts) && StartsInRange(code, starts)
  {
    assert IsLeader(code, tables, divisions, 0);
    assert forall i: nat :: IsLeader(code, tables, divisions, i) ==> i < |code|;
    hide IsLeader;
    starts := [];
    for i := 0 to |code|
      invariant Ascending(starts) && forall k :: 0 <= k < |starts| ==> starts[k] < i
      invariant forall j: nat :: j in starts <==> j < i && marks[j]
      invariant i > 0 ==> |starts| > 0 && starts[0] == 0
    {
      if marks[i] {
        starts := starts + [i];
      }
    }
  }

  function EndOf(code: seq<Instruction>, starts: seq<nat>, b: nat): nat
    requires b < |starts|
  {
    if b + 1 < |starts| then starts[b + 1] else |code|
  }

  /** The last table for a switch address. */
  function TableAt(tables: seq<JumpTable>, vram: int): Option<JumpTable> {
    if tables == [] then None
    else if Address(tables[|tables| - 1].switchVram) == vram then Some(tables[|tables| - 1])
    else TableAt(tables[..|tables| - 1], vram)
  }

  /** The table of the first instruction that has one. */
  function FirstTable(code: seq<Instruction>, tables: seq<JumpTable>): Option<JumpTable> {
    if code == [] then None
    else if TableAt(tables, Address(code[0].vram)).Some? then TableAt(tables, Address(code[0].vram))
    else FirstTable(code[1..], tables)
  }

  /** Block b holds the instructions from its start to the next one. */
  ghost predicate SliceRight(
    x: BasicBlock, code: seq<Instruction>, tables: seq<JumpTable>, starts: seq<nat>, b: nat)
    requires b < |starts| && StartsInRange(code, starts)
  {
    var lo, hi := starts[b], EndOf(code, starts, b);
    && lo < hi <= |code|
    && x.instructions == code[lo..hi]
    && x.startVram == code[lo].vram && x.endVram == code[hi - 1].vram
    && x.jumpTable == FirstTable(code[lo..hi], tables)
  }

  /** The instructions of the first k blocks, end to end. */
  ghost function Joined(blocks: seq<BasicBlock>, k: nat): seq<Instruction>
    requires k <= |blocks|
  {
    if k == 0 then [] else Joined(blocks, k - 1) + blocks[k - 1].instructions
  }

  /** The own blocks tile the code. */
  lemma {:induction false} SlicesTile(
    blocks: seq<BasicBlock>, code: seq<Instruction>, tables: seq<JumpTable>, starts: seq<nat>, k: nat)
    requires StartsInRange(code, starts) && |starts| > 0 && starts[0] == 0
    requires k <= |starts| && k <= |blocks|
    requires forall b :: 0 <= b < k ==> SliceRight(blocks[b], code, tables, starts, b)
    ensures Joined(blocks, k) == code[..if k < |starts| then starts[k] else |code|]
  {
    hide FirstTable;
    if k > 0 {
      SlicesTile(blocks, code, tables, starts, k - 1);
      assert SliceRight(blocks[k - 1], code, tables, starts, k - 1);
      hide SliceRight, StartsInRange;
      var lo, hi := starts[k - 1], EndOf(code, starts, k - 1);
      assert code[..lo] + code[lo..hi] == code[..hi];
    }
  }

  /** Inside a block, control never leaves before the end: the instruction two places after a branch or
      jump starts another block, unless a division expansion holds either of them. */
  lemma ControlEndsBlock(
    code: seq<Instruction>, tables: seq<JumpTable>, divisions: seq<Division>, starts: seq<nat>, b: nat, j: nat)
    requires AllStarts(code, tables, divisions, starts) && StartsInRange(code, starts) && b < |starts|
    requires starts[b] <= j < EndOf(code, starts, b) && code[j].HasDelaySlot()
    ensures j + 2 >= EndOf(code, starts, b) || TrapInternal(divisions, j) || TrapInternal(divisions, j + 2)
  {
    hide TransferTarget, LastAt, TrapInternal, SomeTableStartsBlock;
    if j + 2 < EndOf(code, starts, b) && !TrapInternal(divisions, j) && !TrapInternal(divisions, j + 2) {
      assert StartsBlock(code, divisions, j, j + 2);
      assert SomeControlStartsBlock(code, divisions, |code|, j + 2);
      assert IsLeader(code, tables, divisions, j + 2);
      var k :| 0 <= k < |starts| && starts[k] == j + 2;
      NotBetween(starts, b, k);
      hide IsLeader;
    }
  }

  lemma NotBetween(starts: seq<nat>, b: nat, k: nat)
    requires Ascending(starts) && b < |starts| && k < |starts| && starts[b] < starts[k]
    ensures b + 1 < |starts| && starts[b + 1] <= starts[k]
  {
    if b + 1 < k {
      assert starts[b + 1] < starts[k];
    }
  }

  // ----- Cutting -----

  method CollectSwitches(tables: seq<JumpTable>) returns (switches: map<int, JumpTable>)
    ensures forall x: int :: (x in switches <==> TableAt(tables, x).Some?)
    ensures forall x: int :: x in switches ==> TableAt(tables, x) == Some(switches[x])
  {
    hide Address;
    switches := map[];
    for k := 0 to |tables|
      invariant forall x: int :: (x in switches <==> TableAt(tables[..k], x).Some?)
      invariant forall x: int :: x in switches ==> TableAt(tables[..k], x) == Some(switches[x])
    {
      assert tables[..k + 1][..k] == tables[..k];
      switches := switches[Address(tables[k].switchVram) := tables[k]];
    }
    assert tables[..|tables|] == tables;
  }

  method FindTable(code: seq<Instruction>, ghost tables: seq<JumpTable>, switches: map<int, JumpTable>)
    returns (r: Option<JumpTable>)
    requires forall x: int :: (x in switches <==> TableAt(tables, x).Some?)
    requires forall x: int :: x in switches ==> TableAt(tables, x) == Some(switches[x])
    ensures r == FirstTable(code, tables)
  {
    hide Address, TableAt;
    for i := 0 to |code|
      invariant FirstTable(code, tables) == FirstTable(code[i..], tables)
    {
      var x := Address(code[i].vram);
      if x in switches {
        return Some(switches[x]);
      }
    }
    r := None;
  }

  ghost predicate AllSlicesRight(
    blocks: seq<BasicBlock>, code: seq<Instruction>, tables: seq<JumpTable>, starts: seq<nat>)
    requires StartsInRange(code, starts) && |blocks| <= |starts|
  {
    forall b :: 0 <= b < |blocks| ==>
      SliceRight(blocks[b], code, tables, starts, b) && blocks[b].id == b && Unconnected(blocks[b])
  }

  method AssembleBlocks(code: seq<Instruction>, tables: seq<JumpTable>, starts: seq<nat>)
    returns (blocks: seq<BasicBlock>, index: map<int, nat>)
    requires StartsInRange(code, starts)
    ensures |blocks| == |starts| && AllSlicesRight(blocks, code, tables, starts)
    ensures IndexDescribes(blocks, index)
  {
    hide FirstTable, TableAt, Address, IndexDescribes;
    var switches := CollectSwitches(tables);
    blocks, index := [], map[];
    NothingIndexed();
    for b := 0 to |starts|
      invariant |blocks| == b && AllSlicesRight(blocks, code, tables, starts)
      invariant IndexDescribes(blocks, index)
    {
      var lo, hi := starts[b], EndOf(code, starts, b);
      assert lo < hi <= |code|;
      var table := FindTable(code[lo..hi], tables, switches);
      var block := BasicBlock(b, code[lo].vram, code[hi - 1].vram, code[lo..hi], [], [], [], table);
      IndexNext(blocks, block, index);
      index := index[Address(block.startVram) := b];
      blocks := blocks + [block];
    }
  }

  /** A graph without edges is linked. */
  lemma FreshLinked(blocks: seq<BasicBlock>, code: seq<Instruction>, tables: seq<JumpTable>, starts: seq<nat>)
    requires StartsInRange(code, starts) && |blocks| == |starts| && AllSlicesRight(blocks, code, tables, starts)
    ensures Linked(blocks) && EdgeListAgrees(blocks, [])
    ensures forall i :: 0 <= i < |blocks| ==> blocks[i].instructions != [] && blocks[i].outgoing == []
  {
    hide FirstTable;
    forall i: nat | i < |blocks| ensures Unconnected(blocks[i]) && blocks[i].id == i && blocks[i].instructions != [] {
      assert SliceRight(blocks[i], code, tables, starts, i);
    }
    hide AllSlicesRight, StartsInRange;
  }
}
