/** Edges between basic blocks (core/control_flow_graph.cc, second half of Build): the redundant views
    that every added edge keeps in agreement, and where the edges of each block must lead. */
module Linking {
  import opened Mips
  import opened Blocks
  import opened PostOrder
  import opened Merging
  import opened Leaders
  import opened Wrappers

  // ----- Address index -----

  /** index holds, by numeric address, for every start address of a non-empty block, the last such block. */
  ghost predicate IndexDescribes(blocks: seq<BasicBlock>, index: map<int, nat>) {
    && (forall i :: 0 <= i < |blocks| && blocks[i].instructions != [] ==>
         Address(blocks[i].startVram) in index && i <= index[Address(blocks[i].startVram)])
    && forall x :: x in index ==>
         index[x] < |blocks| && blocks[index[x]].instructions != [] && Address(blocks[index[x]].startVram) == x
  }

  lemma NothingIndexed()
    ensures IndexDescribes([], map[])
  {
  }

  lemma IndexNext(blocks: seq<BasicBlock>, b: BasicBlock, index: map<int, nat>)
    requires IndexDescribes(blocks, index)
    ensures IndexDescribes(blocks + [b], if b.instructions != [] then index[Address(b.startVram) := |blocks|] else index)
  {
    hide Address;
  }

  // ----- Agreement of the views -----

  ghost predicate MultiplicityAgrees(blocks: seq<BasicBlock>, u: nat, v: nat)
    requires u < |blocks| && v < |blocks|
  {
    multiset(blocks[v].predecessors)[u] == multiset(blocks[u].successors)[v]
  }

  /** Ids are positions, outgoing edges spell out the successors, and v is as often a successor of u as
      u is a predecessor of v. */
  ghost predicate Linked(blocks: seq<BasicBlock>) {
    && (forall i :: 0 <= i < |blocks| ==> BlockOk(blocks, i))
    && forall u, v :: 0 <= u < |blocks| && 0 <= v < |blocks| ==> MultiplicityAgrees(blocks, u, v)
  }

  /** The edge list holds each edge as often as its block does. */
  ghost predicate EdgeListAgrees(blocks: seq<BasicBlock>, edges: seq<CfgEdge>) {
    forall e :: multiset(edges)[e] == if e.fromId < |blocks| then multiset(blocks[e.fromId].outgoing)[e] else 0
  }

  lemma LinkedIsWellFormed(blocks: seq<BasicBlock>, entry: nat)
    requires Linked(blocks) && entry < |blocks|
    ensures WellFormed(blocks, entry)
  {
    hide BlockOk;
    forall u: nat, v: nat | u < |blocks| && v < |blocks|
      ensures u in blocks[v].predecessors <==> Edge(blocks, u, v)
    {
      assert MultiplicityAgrees(blocks, u, v);
      assert u in multiset(blocks[v].predecessors) <==> u in blocks[v].predecessors;
      assert v in multiset(blocks[u].successors) <==> v in blocks[u].successors;
    }
  }

  // ----- Adding an edge -----

  function WithEdge(blocks: seq<BasicBlock>, from: nat, to: nat, kind: EdgeType): (r: seq<BasicBlock>)
    requires from < |blocks| && to < |blocks|
    ensures |r| == |blocks|
  {
    var b := blocks[from];
    var g := blocks[from := b.(outgoing := b.outgoing + [CfgEdge(from, to, kind)], successors := b.successors + [to])];
    g[to := g[to].(predecessors := g[to].predecessors + [from])]
  }

  lemma WithEdgeAt(blocks: seq<BasicBlock>, from: nat, to: nat, kind: EdgeType, i: nat)
    requires from < |blocks| && to < |blocks| && i < |blocks|
    ensures var x := WithEdge(blocks, from, to, kind)[i];
      && x == blocks[i].(outgoing := x.outgoing, successors := x.successors, predecessors := x.predecessors)
      && x.outgoing == (if i == from then blocks[i].outgoing + [CfgEdge(from, to, kind)] else blocks[i].outgoing)
      && x.successors == (if i == from then blocks[i].successors + [to] else blocks[i].successors)
      && x.predecessors == (if i == to then blocks[i].predecessors + [from] else blocks[i].predecessors)
  {
  }

  lemma WithEdgeBlockOk(blocks: seq<BasicBlock>, from: nat, to: nat, kind: EdgeType, i: nat)
    requires from < |blocks| && to < |blocks| && i < |blocks| && BlockOk(blocks, i)
    ensures BlockOk(WithEdge(blocks, from, to, kind), i)
  {
    WithEdgeAt(blocks, from, to, kind, i);
    hide WithEdge;
  }

  lemma WithEdgeMultiplicity(blocks: seq<BasicBlock>, from: nat, to: nat, kind: EdgeType, u: nat, v: nat)
    requires from < |blocks| && to < |blocks| && u < |blocks| && v < |blocks| && MultiplicityAgrees(blocks, u, v)
    ensures MultiplicityAgrees(WithEdge(blocks, from, to, kind), u, v)
  {
    WithEdgeAt(blocks, from, to, kind, u);
    WithEdgeAt(blocks, from, to, kind, v);
    hide WithEdge;
  }

  /** An added edge keeps the views in agreement. */
  lemma WithEdgeLinked(blocks: seq<BasicBlock>, from: nat, to: nat, kind: EdgeType)
    requires from < |blocks| && to < |blocks| && Linked(blocks)
    ensures Linked(WithEdge(blocks, from, to, kind))
  {
    var g := WithEdge(blocks, from, to, kind);
    hide WithEdge, BlockOk, MultiplicityAgrees;
    forall i | 0 <= i < |g| ensures BlockOk(g, i) {
      WithEdgeBlockOk(blocks, from, to, kind, i);
    }
    forall u, v | 0 <= u < |g| && 0 <= v < |g| ensures MultiplicityAgrees(g, u, v) {
      WithEdgeMultiplicity(blocks, from, to, kind, u, v);
    }
  }

  lemma WithEdgeListed(blocks: seq<BasicBlock>, edges: seq<CfgEdge>, from: nat, to: nat, kind: EdgeType)
    requires from < |blocks| && to < |blocks| && EdgeListAgrees(blocks, edges)
    ensures EdgeListAgrees(WithEdge(blocks, from, to, kind), edges + [CfgEdge(from, to, kind)])
  {
    var g := WithEdge(blocks, from, to, kind);
    forall e: CfgEdge
      ensures multiset(edges + [CfgEdge(from, to, kind)])[e] ==
              if e.fromId < |g| then multiset(g[e.fromId].outgoing)[e] else 0
    {
      if e.fromId < |blocks| {
        WithEdgeAt(blocks, from, to, kind, e.fromId);
      }
      hide WithEdge;
    }
  }

  // ----- Adding an unconnected block -----

  predicate Unconnected(b: BasicBlock) {
    b.predecessors == [] && b.successors == [] && b.outgoing == []
  }

  lemma AppendBlockOk(blocks: seq<BasicBlock>, b: BasicBlock, i: nat)
    requires (forall k :: 0 <= k < |blocks| ==> BlockOk(blocks, k)) && Unconnected(b) && b.id == |blocks|
    requires i <= |blocks|
    ensures BlockOk(blocks + [b], i)
  {
    if i < |blocks| {
      assert BlockOk(blocks, i);
    }
  }

  lemma AppendMultiplicity(blocks: seq<BasicBlock>, b: BasicBlock, u: nat, v: nat)
    requires Linked(blocks) && Unconnected(b) && u <= |blocks| && v <= |blocks|
    ensures MultiplicityAgrees(blocks + [b], u, v)
  {
    var n := |blocks|;
    if u < n && v < n {
      assert MultiplicityAgrees(blocks, u, v);
    } else if u < n {
      assert BlockOk(blocks, u);
      assert n !in blocks[u].successors;
    } else if v < n {
      assert BlockOk(blocks, v);
      assert n !in blocks[v].predecessors;
    }
  }

  lemma AppendLinked(blocks: seq<BasicBlock>, b: BasicBlock)
    requires Linked(blocks) && Unconnected(b) && b.id == |blocks|
    ensures Linked(blocks + [b])
  {
    var g := blocks + [b];
    forall i | 0 <= i < |g| ensures BlockOk(g, i) {
      AppendBlockOk(blocks, b, i);
    }
    forall u, v | 0 <= u < |g| && 0 <= v < |g| ensures MultiplicityAgrees(g, u, v) {
      AppendMultiplicity(blocks, b, u, v);
    }
    hide BlockOk, MultiplicityAgrees;
  }

  lemma AppendListed(blocks: seq<BasicBlock>, edges: seq<CfgEdge>, b: BasicBlock)
    requires EdgeListAgrees(blocks, edges) && Unconnected(b)
    ensures EdgeListAgrees(blocks + [b], edges)
  {
  }

  // ----- Where edges lead -----

  /** Some own block, one of the first n, starts at vram. */
  ghost predicate OwnBlockAt(blocks: seq<BasicBlock>, n: nat, vram: bv32) {
    exists i :: 0 <= i < n && i < |blocks| && blocks[i].startVram == vram
  }

  ghost predicate LeadsTo(blocks: seq<BasicBlock>, e: CfgEdge, kind: EdgeType, vram: bv32) {
    e.kind == kind && e.toId < |blocks| && blocks[e.toId].startVram == vram
  }

  function FallthroughVram(x: Instruction): bv32 {
    x.vram + (if x.HasDelaySlot() then 8 else 4)
  }

  /** The switch edges of a block: to case targets, no two to the same address, and to every case target
      that starts an own block. */
  ghost predicate SwitchRight(blocks: seq<BasicBlock>, n: nat, entries: seq<bv32>, out: seq<CfgEdge>) {
    && (forall k :: 0 <= k < |out| ==>
         out[k].kind.JumpEdge? && out[k].toId < |blocks| && blocks[out[k].toId].startVram in entries)
    && (forall k, l :: 0 <= k < l < |out| ==>
         out[k].toId < |blocks| && out[l].toId < |blocks| ==>
         blocks[out[k].toId].startVram != blocks[out[l].toId].startVram)
    && forall v :: v in entries && OwnBlockAt(blocks, n, v) ==> exists k :: 0 <= k < |out| && LeadsTo(blocks, out[k], JumpEdge, v)
  }

  ghost predicate BranchRight(blocks: seq<BasicBlock>, n: nat, x: Instruction, out: seq<CfgEdge>) {
    && 1 <= |out| <= 2
    && LeadsTo(blocks, out[0], BranchTaken, x.BranchTarget())
    && (|out| == 2 ==> !x.IsUnconditionalBranch() && LeadsTo(blocks, out[1], Fallthrough, FallthroughVram(x)))
    && (!x.IsUnconditionalBranch() && OwnBlockAt(blocks, n, FallthroughVram(x)) ==> |out| == 2)
  }

  function IndirectTarget(b: BasicBlock, x: Instruction): Option<bv32> {
    if x.rs.Some? && x.rs.value != RA then ConstantTarget(b.instructions, x.rs.value) else None
  }

  ghost predicate IndirectRight(blocks: seq<BasicBlock>, n: nat, target: Option<bv32>, out: seq<CfgEdge>) {
    && |out| <= 1
    && (|out| == 1 ==> target.Some? && LeadsTo(blocks, out[0], JumpEdge, target.value))
    && (target.Some? && OwnBlockAt(blocks, n, target.value) ==> |out| == 1)
  }

  /** The outgoing edges of own block b are those that its terminator asks for. */
  ghost predicate EdgesRight(blocks: seq<BasicBlock>, n: nat, b: nat)
    requires b < |blocks|
  {
    var out, t := blocks[b].outgoing, blocks[b].Terminator();
    if t.None? then out == []
    else
      var x := t.value;
      if x.IsReturn() then out == []
      else if blocks[b].jumpTable.Some? then SwitchRight(blocks, n, blocks[b].jumpTable.value.entries, out)
      else if x.opcode.J? then |out| == 1 && LeadsTo(blocks, out[0], JumpEdge, x.JumpTarget())
      else if x.IsBranch() then BranchRight(blocks, n, x, out)
      else if x.opcode.Jr? then IndirectRight(blocks, n, IndirectTarget(blocks[b], x), out)
      else out == if b + 1 < n then [CfgEdge(b, b + 1, Fallthrough)] else []
  }

  /** h has the blocks of g, perhaps with other edges, and perhaps more blocks. */
  ghost predicate SameCode(g: seq<BasicBlock>, h: seq<BasicBlock>) {
    && |g| <= |h|
    && forall i :: 0 <= i < |g| ==>
         h[i] == g[i].(outgoing := h[i].outgoing, successors := h[i].successors, predecessors := h[i].predecessors)
  }

  lemma SameCodeTransitive(g: seq<BasicBlock>, h: seq<BasicBlock>, k: seq<BasicBlock>)
    requires SameCode(g, h) && SameCode(h, k)
    ensures SameCode(g, k)
  {
  }

  lemma WithEdgeSameCode(blocks: seq<BasicBlock>, from: nat, to: nat, kind: EdgeType)
    requires from < |blocks| && to < |blocks|
    ensures SameCode(blocks, WithEdge(blocks, from, to, kind))
  {
    forall i | 0 <= i < |blocks|
      ensures var h := WithEdge(blocks, from, to, kind);
        h[i] == blocks[i].(outgoing := h[i].outgoing, successors := h[i].successors, predecessors := h[i].predecessors)
    {
      WithEdgeAt(blocks, from, to, kind, i);
    }
    hide WithEdge;
  }

  lemma SameOwnBlocks(g: seq<BasicBlock>, h: seq<BasicBlock>, n: nat, vram: bv32)
    requires SameCode(g, h) && n <= |g|
    ensures OwnBlockAt(g, n, vram) <==> OwnBlockAt(h, n, vram)
  {
    if OwnBlockAt(g, n, vram) {
      var i :| 0 <= i < n && i < |g| && g[i].startVram == vram;
      assert h[i].startVram == vram;
    }
    if OwnBlockAt(h, n, vram) {
      var i :| 0 <= i < n && i < |h| && h[i].startVram == vram;
      assert g[i].startVram == vram;
    }
  }

  lemma SameLead(g: seq<BasicBlock>, h: seq<BasicBlock>, e: CfgEdge, kind: EdgeType, vram: bv32)
    requires SameCode(g, h) && e.toId < |g|
    ensures LeadsTo(g, e, kind, vram) <==> LeadsTo(h, e, kind, vram)
  {
  }

  lemma SwitchStaysRight(g: seq<BasicBlock>, h: seq<BasicBlock>, n: nat, entries: seq<bv32>, out: seq<CfgEdge>)
    requires SameCode(g, h) && n <= |g| && SwitchRight(g, n, entries, out)
    ensures SwitchRight(h, n, entries, out)
  {
    forall v | v in entries && OwnBlockAt(h, n, v) ensures exists k :: 0 <= k < |out| && LeadsTo(h, out[k], JumpEdge, v) {
      SameOwnBlocks(g, h, n, v);
      var k :| 0 <= k < |out| && LeadsTo(g, out[k], JumpEdge, v);
      SameLead(g, h, out[k], JumpEdge, v);
    }
    hide OwnBlockAt, LeadsTo;
  }

  lemma BranchStaysRight(g: seq<BasicBlock>, h: seq<BasicBlock>, n: nat, x: Instruction, out: seq<CfgEdge>)
    requires SameCode(g, h) && n <= |g| && BranchRight(g, n, x, out)
    ensures BranchRight(h, n, x, out)
  {
    SameOwnBlocks(g, h, n, FallthroughVram(x));
    SameLead(g, h, out[0], BranchTaken, x.BranchTarget());
    if |out| == 2 {
      SameLead(g, h, out[1], Fallthrough, FallthroughVram(x));
    }
    hide OwnBlockAt, SameCode, FallthroughVram;
  }

  lemma IndirectStaysRight(g: seq<BasicBlock>, h: seq<BasicBlock>, n: nat, target: Option<bv32>, out: seq<CfgEdge>)
    requires SameCode(g, h) && n <= |g| && IndirectRight(g, n, target, out)
    ensures IndirectRight(h, n, target, out)
  {
    if target.Some? {
      SameOwnBlocks(g, h, n, target.value);
      if |out| == 1 {
        SameLead(g, h, out[0], JumpEdge, target.value);
      }
    }
    hide OwnBlockAt, SameCode;
  }

  /** The edges of a block stay right while other edges and blocks are added. */
  lemma EdgesStayRight(g: seq<BasicBlock>, h: seq<BasicBlock>, n: nat, b: nat)
    requires SameCode(g, h) && n <= |g| && b < |g| && h[b].outgoing == g[b].outgoing
    requires EdgesRight(g, n, b)
    ensures EdgesRight(h, n, b)
  {
    var out, t := g[b].outgoing, g[b].Terminator();
    assert h[b].Terminator() == t && h[b].jumpTable == g[b].jumpTable && h[b].instructions == g[b].instructions;
    hide SameCode, SwitchRight, BranchRight, IndirectRight;
    if t.Some? && !t.value.IsReturn() {
      if g[b].jumpTable.Some? {
        SwitchStaysRight(g, h, n, g[b].jumpTable.value.entries, out);
      } else if t.value.opcode.J? {
        SameLead(g, h, out[0], JumpEdge, t.value.JumpTarget());
      } else if t.value.IsBranch() {
        BranchStaysRight(g, h, n, t.value, out);
      } else if t.value.opcode.Jr? {
        IndirectStaysRight(g, h, n, IndirectTarget(g[b], t.value), out);
      }
    }
  }

  // ----- Wiring the blocks one after the other -----

  lemma SameCodeSameIndex(g: seq<BasicBlock>, h: seq<BasicBlock>, index: map<int, nat>)
    requires SameCode(g, h) && |g| == |h| && IndexDescribes(g, index)
    ensures IndexDescribes(h, index)
  {
    hide Address;
  }

  ghost predicate AllNonEmpty(blocks: seq<BasicBlock>) {
    forall i :: 0 <= i < |blocks| ==> blocks[i].instructions != []
  }

  /** What a lookup of an address tells. */
  lemma LookupTells(blocks: seq<BasicBlock>, index: map<int, nat>, n: nat, vram: bv32)
    requires IndexDescribes(blocks, index) && AllNonEmpty(blocks)
    ensures Address(vram) in index ==> index[Address(vram)] < |blocks| && blocks[index[Address(vram)]].startVram == vram
    ensures Address(vram) !in index ==> !OwnBlockAt(blocks, n, vram)
  {
    hide Address;
    if Address(vram) in index {
      AddressInjective(blocks[index[Address(vram)]].startVram, vram);
    }
  }

  function StubInstruction(
    vram: bv32, word: bv32, op: Opcode, rd: Option<Register>, rs: Option<Register>, rt: Option<Register>,
    target: bv32): Instruction
  {
    Instruction(word, vram, op, rd, rs, rt, None, None, None, 0, 0, target)
  }

  function CallField(vram: bv32): bv32 { (vram & 0x0FFFFFFF) >> 2 }

  /** The code of the block that stands for a function outside the code: use the argument registers,
      call the function, return. */
  function StubCode(vram: bv32): (r: seq<Instruction>)
    ensures |r| == 6
  {
    [StubInstruction(vram, 0x00850025, Or, Some(ZERO), Some(A0), Some(A1), 0),
     StubInstruction(vram + 4, 0x00C70025, Or, Some(ZERO), Some(A2), Some(A3), 0),
     StubInstruction(vram + 8, 0x0C000000 | CallField(vram), Jal, None, None, None, CallField(vram)),
     StubInstruction(vram + 12, 0, Sll, Some(ZERO), None, Some(ZERO), 0),
     StubInstruction(vram + 16, 0x03E00008, Jr, None, Some(RA), None, 0),
     StubInstruction(vram + 20, 0, Sll, Some(ZERO), None, Some(ZERO), 0)]
  }

  function Stub(id: nat, vram: bv32): BasicBlock {
    BasicBlock(id, vram, vram + 24, StubCode(vram), [], [], [], None)
  }

  ghost predicate IsStub(b: BasicBlock) {
    && b.instructions == StubCode(b.startVram) && b.endVram == b.startVram + 24 && b.jumpTable.None?
    && b.outgoing == []
  }

  ghost predicate WiredAt(blocks: seq<BasicBlock>, n: nat, b: nat, i: nat)
    requires i < |blocks|
  {
    && blocks[i].instructions != []
    && (i < n && i < b ==> EdgesRight(blocks, n, i))
    && (b < i < n ==> blocks[i].outgoing == [])
    && (n <= i ==> IsStub(blocks[i]))
  }

  /** The graph while own block b is being wired: base is the graph without edges, the blocks before b
      have their edges, those after b have none, and what follows the own blocks are stubs. */
  ghost predicate Wiring(
    blocks: seq<BasicBlock>, edges: seq<CfgEdge>, index: map<int, nat>, base: seq<BasicBlock>, b: nat)
  {
    && SameCode(base, blocks) && Linked(blocks) && EdgeListAgrees(blocks, edges) && IndexDescribes(blocks, index)
    && forall i :: 0 <= i < |blocks| ==> WiredAt(blocks, |base|, b, i)
  }

  lemma WithEdgeWiredAt(blocks: seq<BasicBlock>, n: nat, b: nat, to: nat, kind: EdgeType, i: nat)
    requires b < n <= |blocks| && to < |blocks| && i < |blocks| && WiredAt(blocks, n, b, i)
    ensures WiredAt(WithEdge(blocks, b, to, kind), n, b, i)
  {
    var g := WithEdge(blocks, b, to, kind);
    WithEdgeAt(blocks, b, to, kind, i);
    WithEdgeSameCode(blocks, b, to, kind);
    hide WithEdge, EdgesRight, SameCode, StubCode;
    if i < b {
      EdgesStayRight(blocks, g, n, i);
    }
  }

  lemma WithEdgeWired(
    blocks: seq<BasicBlock>, edges: seq<CfgEdge>, index: map<int, nat>, base: seq<BasicBlock>,
    b: nat, to: nat, kind: EdgeType)
    requires Wiring(blocks, edges, index, base, b) && b < |base| && to < |blocks|
    ensures Wiring(WithEdge(blocks, b, to, kind), edges + [CfgEdge(b, to, kind)], index, base, b)
  {
    var g := WithEdge(blocks, b, to, kind);
    assert |base| <= |blocks|;
    hide WithEdge, Linked, EdgeListAgrees, IndexDescribes, SameCode, WiredAt;
    WithEdgeLinked(blocks, b, to, kind);
    WithEdgeListed(blocks, edges, b, to, kind);
    WithEdgeSameCode(blocks, b, to, kind);
    SameCodeTransitive(base, blocks, g);
    SameCodeSameIndex(blocks, g, index);
    forall i: nat | i < |g| ensures WiredAt(g, |base|, b, i) {
      WithEdgeWiredAt(blocks, |base|, b, to, kind, i);
    }
  }

  lemma StubWiredAt(blocks: seq<BasicBlock>, n: nat, b: nat, vram: bv32, i: nat)
    requires b < n <= |blocks| && i <= |blocks| && (i < |blocks| ==> WiredAt(blocks, n, b, i))
    ensures WiredAt(blocks + [Stub(|blocks|, vram)], n, b, i)
  {
    var g := blocks + [Stub(|blocks|, vram)];
    if i < b {
      assert SameCode(blocks, g);
      hide EdgesRight, Stub, SameCode;
      EdgesStayRight(blocks, g, n, i);
    }
    hide EdgesRight;
  }

  lemma StubWired(
    blocks: seq<BasicBlock>, edges: seq<CfgEdge>, index: map<int, nat>, base: seq<BasicBlock>, b: nat, vram: bv32)
    requires Wiring(blocks, edges, index, base, b) && b < |base|
    ensures Wiring(blocks + [Stub(|blocks|, vram)], edges, index[Address(vram) := |blocks|], base, b)
  {
    var s := Stub(|blocks|, vram);
    var g := blocks + [s];
    AppendLinked(blocks, s);
    AppendListed(blocks, edges, s);
    IndexNext(blocks, s, index);
    assert SameCode(blocks, g);
    SameCodeTransitive(base, blocks, g);
    assert |base| <= |blocks|;
    hide Stub, Linked, EdgeListAgrees, IndexDescribes, SameCode, WiredAt;
    forall i: nat | i < |g| ensures WiredAt(g, |base|, b, i) {
      StubWiredAt(blocks, |base|, b, vram, i);
    }
  }

  lemma WiredBlock(blocks: seq<BasicBlock>, edges: seq<CfgEdge>, index: map<int, nat>, base: seq<BasicBlock>, b: nat)
    requires Wiring(blocks, edges, index, base, b) && b < |base| && EdgesRight(blocks, |base|, b)
    ensures Wiring(blocks, edges, index, base, b + 1)
  {
    hide Linked, EdgeListAgrees, IndexDescribes, IsStub, EdgesRight, SameCode;
    var next := b + 1;
    forall i: nat | i < |blocks| ensures WiredAt(blocks, |base|, next, i) {
      assert WiredAt(blocks, |base|, b, i);
    }
  }

  /** What the lookup of an address tells while a graph is being wired. */
  lemma WiringLookup(
    blocks: seq<BasicBlock>, edges: seq<CfgEdge>, index: map<int, nat>, base: seq<BasicBlock>, b: nat, vram: bv32)
    requires Wiring(blocks, edges, index, base, b)
    ensures Address(vram) in index ==> index[Address(vram)] < |blocks| && blocks[index[Address(vram)]].startVram == vram
    ensures Address(vram) !in index ==> !OwnBlockAt(blocks, |base|, vram)
  {
    hide Linked, EdgeListAgrees, IndexDescribes, SameCode, EdgesRight, IsStub, OwnBlockAt;
    forall i: nat | i < |blocks| ensures blocks[i].instructions != [] {
      assert WiredAt(blocks, |base|, b, i);
    }
    LookupTells(blocks, index, |base|, vram);
  }

  lemma WiringHasBase(
    blocks: seq<BasicBlock>, edges: seq<CfgEdge>, index: map<int, nat>, base: seq<BasicBlock>, b: nat)
    requires Wiring(blocks, edges, index, base, b)
    ensures |base| <= |blocks|
    ensures b + 1 < |base| ==> blocks[b + 1].outgoing == []
  {
    hide Linked, EdgeListAgrees, IndexDescribes, EdgesRight, IsStub;
    if b + 1 < |base| {
      assert WiredAt(blocks, |base|, b, b + 1);
    }
  }

  lemma SameTerminator(g: seq<BasicBlock>, h: seq<BasicBlock>, b: nat)
    requires SameCode(g, h) && b < |g|
    ensures h[b].Terminator() == g[b].Terminator() && h[b].jumpTable == g[b].jumpTable
    ensures h[b].instructions == g[b].instructions
    ensures forall x :: IndirectTarget(h[b], x) == IndirectTarget(g[b], x)
  {
  }

  lemma WiringStarts(blocks: seq<BasicBlock>, edges: seq<CfgEdge>, index: map<int, nat>)
    requires Linked(blocks) && EdgeListAgrees(blocks, edges) && IndexDescribes(blocks, index)
    requires forall i :: 0 <= i < |blocks| ==> blocks[i].instructions != [] && blocks[i].outgoing == []
    ensures Wiring(blocks, edges, index, blocks, 0)
  {
    hide Linked, EdgeListAgrees, IndexDescribes, EdgesRight, IsStub;
  }

  lemma SameCodeReflexive(blocks: seq<BasicBlock>)
    ensures SameCode(blocks, blocks)
  {
  }

  // ----- Growing the edges of a switch -----

  lemma SwitchSeenBefore(blocks: seq<BasicBlock>, n: nat, entries: seq<bv32>, out: seq<CfgEdge>, v: bv32)
    requires SwitchRight(blocks, n, entries, out)
    requires v in entries || !OwnBlockAt(blocks, n, v)
    ensures SwitchRight(blocks, n, entries + [v], out)
  {
    hide OwnBlockAt, LeadsTo;
  }

  lemma SwitchNewTarget(
    blocks: seq<BasicBlock>, n: nat, entries: seq<bv32>, out: seq<CfgEdge>, v: bv32, e: CfgEdge)
    requires SwitchRight(blocks, n, entries, out)
    requires v !in entries && LeadsTo(blocks, e, JumpEdge, v)
    ensures SwitchRight(blocks, n, entries + [v], out + [e])
  {
    var all := out + [e];
    forall w | w in entries + [v] && OwnBlockAt(blocks, n, w)
      ensures exists k :: 0 <= k < |all| && LeadsTo(blocks, all[k], JumpEdge, w)
    {
      if w == v {
        assert all[|out|] == e;
      } else {
        var k :| 0 <= k < |out| && LeadsTo(blocks, out[k], JumpEdge, w);
        assert all[k] == out[k];
      }
    }
    hide OwnBlockAt;
  }
}
