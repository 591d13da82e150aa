/** Merging a block into its only predecessor (core/control_flow_graph.cc, CoalesceContiguousBlocks):
    what a well-formed graph is, which instruction sequences its walks execute, and why one merge
    changes neither. */
module Merging {
  import opened Mips
  import opened Blocks
  import opened PostOrder
  import opened Wrappers

  // ----- Well-formed graphs -----

  /** Block i carries its position as id, and its outgoing edges spell out its successor list. */
  ghost predicate BlockOk(blocks: seq<BasicBlock>, i: nat)
    requires i < |blocks|
  {
    var b := blocks[i];
    && b.id == i
    && (forall k :: 0 <= k < |b.successors| ==> b.successors[k] < |blocks|)
    && (forall k :: 0 <= k < |b.predecessors| ==> b.predecessors[k] < |blocks|)
    && |b.outgoing| == |b.successors|
    && forall k :: 0 <= k < |b.outgoing| ==> b.outgoing[k].fromId == i && b.outgoing[k].toId == b.successors[k]
  }

  /** Every block is in order, and predecessor lists name exactly the blocks that list them as
      successors. */
  ghost predicate WellFormed(blocks: seq<BasicBlock>, entry: nat) {
    && entry < |blocks|
    && (forall i :: 0 <= i < |blocks| ==> BlockOk(blocks, i))
    && forall u: nat, v: nat {:trigger Edge(blocks, u, v)} {:trigger u in blocks[v].predecessors} ::
         u < |blocks| && v < |blocks| ==> (u in blocks[v].predecessors <==> Edge(blocks, u, v))
  }

  ghost predicate ReachableNonEmpty(blocks: seq<BasicBlock>, entry: nat) {
    forall v: nat :: Reaches(blocks, entry, v) ==> v < |blocks| && blocks[v].instructions != []
  }

  // ----- Traces -----

  ghost predicate InRange(blocks: seq<BasicBlock>, p: seq<nat>) {
    forall i :: 0 <= i < |p| ==> p[i] < |blocks|
  }

  /** The instructions executed along a walk. */
  ghost function InstructionsAlong(blocks: seq<BasicBlock>, p: seq<nat>): seq<Instruction>
    requires InRange(blocks, p)
  {
    if p == [] then []
    else InstructionsAlong(blocks, p[..|p| - 1]) + blocks[p[|p| - 1]].instructions
  }

  ghost predicate EntryWalk(blocks: seq<BasicBlock>, entry: nat, p: seq<nat>) {
    Walk(blocks, p) && InRange(blocks, p) && p[0] == entry
  }

  /** t is executed, perhaps only in part of its last block, along some walk from the entry. */
  ghost predicate IsTrace(blocks: seq<BasicBlock>, entry: nat, t: seq<Instruction>) {
    exists p :: EntryWalk(blocks, entry, p) && t <= InstructionsAlong(blocks, p)
  }

  ghost predicate SameTraces(g: seq<BasicBlock>, entry: nat, h: seq<BasicBlock>, entry': nat) {
    forall t :: IsTrace(g, entry, t) <==> IsTrace(h, entry', t)
  }

  lemma WalkFront(blocks: seq<BasicBlock>, entry: nat, p: seq<nat>)
    requires EntryWalk(blocks, entry, p) && |p| > 1
    ensures EntryWalk(blocks, entry, p[..|p| - 1])
    ensures Edge(blocks, p[|p| - 2], p[|p| - 1])
  {
    hide Edge;
    var n := |p| - 1;
    assert Edge(blocks, p[n - 1], p[n - 1 + 1]);
  }

  lemma WalkExtend(blocks: seq<BasicBlock>, entry: nat, p: seq<nat>, v: nat)
    requires EntryWalk(blocks, entry, p) && v < |blocks| && Edge(blocks, p[|p| - 1], v)
    ensures EntryWalk(blocks, entry, p + [v])
    ensures InstructionsAlong(blocks, p + [v]) == InstructionsAlong(blocks, p) + blocks[v].instructions
  {
    hide Edge;
    var q := p + [v];
    assert q[..|q| - 1] == p;
    forall i | 0 <= i < |q| - 1 ensures Edge(blocks, q[i], q[i + 1]) {
      if i < |p| - 1 {
        assert Edge(blocks, p[i], p[i + 1]);
      }
    }
  }

  // ----- The merge -----

  /** b falls through from a alone, and a only falls through to b. */
  ghost predicate Mergeable(blocks: seq<BasicBlock>, entry: nat, a: nat, b: nat) {
    && a < |blocks| && b < |blocks| && a != b && b != entry
    && blocks[a].successors == [b]
    && blocks[b].predecessors == [a]
    && blocks[a].instructions != [] && blocks[b].instructions != []
  }

  function Renamed(ids: seq<nat>, old': nat, new': nat): (r: seq<nat>)
    ensures |r| == |ids|
    ensures forall i :: 0 <= i < |ids| ==> r[i] == if ids[i] == old' then new' else ids[i]
  {
    seq(|ids|, i requires 0 <= i < |ids| => if ids[i] == old' then new' else ids[i])
  }

  function FromBlock(edges: seq<CfgEdge>, a: nat): (r: seq<CfgEdge>)
    ensures |r| == |edges|
    ensures forall i :: 0 <= i < |edges| ==> r[i] == edges[i].(fromId := a)
  {
    seq(|edges|, i requires 0 <= i < |edges| => edges[i].(fromId := a))
  }

  function Absorbed(ba: BasicBlock, bb: BasicBlock, a: nat): BasicBlock {
    ba.(instructions := ba.instructions + bb.instructions,
        endVram := bb.endVram,
        jumpTable := if bb.jumpTable.Some? then bb.jumpTable else ba.jumpTable,
        successors := bb.successors,
        outgoing := FromBlock(bb.outgoing, a))
  }

  function Emptied(bb: BasicBlock): BasicBlock {
    bb.(instructions := [], predecessors := [], successors := [], outgoing := [])
  }

  function MergedBlock(blocks: seq<BasicBlock>, a: nat, b: nat, i: nat): BasicBlock
    requires a < |blocks| && b < |blocks| && i < |blocks|
  {
    if i == b then Emptied(blocks[b])
    else
      var x := if i == a then Absorbed(blocks[a], blocks[b], a) else blocks[i];
      if i in blocks[b].successors then x.(predecessors := Renamed(x.predecessors, b, a)) else x
  }

  /** The graph after a has absorbed b. */
  function MergedGraph(blocks: seq<BasicBlock>, a: nat, b: nat): (r: seq<BasicBlock>)
    requires a < |blocks| && b < |blocks|
    ensures |r| == |blocks|
  {
    seq(|blocks|, i requires 0 <= i < |blocks| => MergedBlock(blocks, a, b, i))
  }

  lemma MergedAt(blocks: seq<BasicBlock>, a: nat, b: nat, i: nat)
    requires a < |blocks| && b < |blocks| && i < |blocks|
    ensures MergedGraph(blocks, a, b)[i] == MergedBlock(blocks, a, b, i)
  {
    hide MergedBlock;
  }

  lemma MergedInstructions(blocks: seq<BasicBlock>, entry: nat, a: nat, b: nat, i: nat)
    requires Mergeable(blocks, entry, a, b) && i < |blocks|
    ensures MergedGraph(blocks, a, b)[i].instructions ==
            if i == b then []
            else if i == a then blocks[a].instructions + blocks[b].instructions
            else blocks[i].instructions
  {
    MergedAt(blocks, a, b, i);
    hide MergedGraph, Renamed, FromBlock;
  }

  lemma MergedSuccessors(blocks: seq<BasicBlock>, entry: nat, a: nat, b: nat, i: nat)
    requires Mergeable(blocks, entry, a, b) && i < |blocks|
    ensures MergedGraph(blocks, a, b)[i].successors ==
            if i == b then [] else if i == a then blocks[b].successors else blocks[i].successors
    ensures MergedGraph(blocks, a, b)[i].id == blocks[i].id
  {
    MergedAt(blocks, a, b, i);
    hide MergedGraph, Renamed, FromBlock;
  }

  lemma MergedOutgoing(blocks: seq<BasicBlock>, entry: nat, a: nat, b: nat, i: nat)
    requires Mergeable(blocks, entry, a, b) && i < |blocks|
    ensures MergedGraph(blocks, a, b)[i].outgoing ==
            if i == b then [] else if i == a then FromBlock(blocks[b].outgoing, a) else blocks[i].outgoing
  {
    MergedAt(blocks, a, b, i);
    hide MergedGraph, Renamed, FromBlock;
  }

  lemma MergedPredecessorList(blocks: seq<BasicBlock>, entry: nat, a: nat, b: nat, i: nat)
    requires Mergeable(blocks, entry, a, b) && i < |blocks|
    ensures MergedGraph(blocks, a, b)[i].predecessors ==
            if i == b then []
            else if i in blocks[b].successors then Renamed(blocks[i].predecessors, b, a)
            else blocks[i].predecessors
  {
    MergedAt(blocks, a, b, i);
    hide MergedGraph, Renamed, FromBlock;
  }

  lemma MergedEdges(blocks: seq<BasicBlock>, entry: nat, a: nat, b: nat, u: nat, v: nat)
    requires WellFormed(blocks, entry) && Mergeable(blocks, entry, a, b)
    ensures var g := MergedGraph(blocks, a, b);
            Edge(g, u, v) <==>
              u != b && (if u == a then Edge(blocks, b, v) else Edge(blocks, u, v))
    ensures Edge(blocks, u, b) <==> u == a
    ensures Edge(blocks, a, v) <==> v == b
  {
    if u < |blocks| {
      MergedSuccessors(blocks, entry, a, b, u);
      assert u in blocks[b].predecessors <==> Edge(blocks, u, b);
    }
    hide MergedGraph, BlockOk;
  }

  lemma EdgesInRange(blocks: seq<BasicBlock>, entry: nat, u: nat, v: nat)
    requires WellFormed(blocks, entry) && Edge(blocks, u, v)
    ensures u < |blocks| && v < |blocks|
  {
    assert BlockOk(blocks, u);
  }

  lemma RenamedMembers(ids: seq<nat>, b: nat, a: nat, u: nat)
    requires a != b
    ensures u in Renamed(ids, b, a) <==> u != b && (u in ids || (u == a && b in ids))
  {
    var r := Renamed(ids, b, a);
    if u in ids && u != b {
      var i :| 0 <= i < |ids| && ids[i] == u;
      assert r[i] == u;
    }
    if b in ids {
      var i :| 0 <= i < |ids| && ids[i] == b;
      assert r[i] == a;
    }
  }

  lemma MergedPredecessors(blocks: seq<BasicBlock>, entry: nat, a: nat, b: nat, u: nat, v: nat)
    requires WellFormed(blocks, entry) && Mergeable(blocks, entry, a, b)
    requires u < |blocks| && v < |blocks|
    ensures var g := MergedGraph(blocks, a, b); u in g[v].predecessors <==> Edge(g, u, v)
  {
    MergedPredecessorList(blocks, entry, a, b, v);
    MergedEdges(blocks, entry, a, b, u, v);
    MergedEdges(blocks, entry, a, b, b, v);
    RenamedMembers(blocks[v].predecessors, b, a, u);
    assert u in blocks[v].predecessors <==> Edge(blocks, u, v);
    assert b in blocks[v].predecessors <==> Edge(blocks, b, v);
    assert v in blocks[b].successors <==> Edge(blocks, b, v);
    hide MergedGraph, BlockOk, WellFormed;
  }

  lemma MergedBlockOk(blocks: seq<BasicBlock>, entry: nat, a: nat, b: nat, i: nat)
    requires WellFormed(blocks, entry) && Mergeable(blocks, entry, a, b) && i < |blocks|
    ensures BlockOk(MergedGraph(blocks, a, b), i)
  {
    MergedSuccessors(blocks, entry, a, b, i);
    MergedPredecessorList(blocks, entry, a, b, i);
    MergedOutgoing(blocks, entry, a, b, i);
    assert BlockOk(blocks, i) && BlockOk(blocks, b);
    hide MergedGraph;
  }

  lemma MergedWellFormed(blocks: seq<BasicBlock>, entry: nat, a: nat, b: nat)
    requires WellFormed(blocks, entry) && Mergeable(blocks, entry, a, b)
    ensures WellFormed(MergedGraph(blocks, a, b), entry)
  {
    var g := MergedGraph(blocks, a, b);
    forall i | 0 <= i < |g| ensures BlockOk(g, i) {
      MergedBlockOk(blocks, entry, a, b, i);
    }
    forall u: nat, v: nat | u < |g| && v < |g| ensures u in g[v].predecessors <==> Edge(g, u, v) {
      MergedPredecessors(blocks, entry, a, b, u, v);
    }
    hide MergedGraph, BlockOk, Edge;
  }

  // ----- Walks before and after -----

  /** A walk through the merged graph, with every visit of a followed by b. */
  function Expanded(p: seq<nat>, a: nat, b: nat): (r: seq<nat>)
    ensures |r| >= |p|
  {
    if p == [] then []
    else Expanded(p[..|p| - 1], a, b) + (if p[|p| - 1] == a then [a, b] else [p[|p| - 1]])
  }

  lemma AlongOne(blocks: seq<BasicBlock>, v: nat)
    requires v < |blocks|
    ensures InstructionsAlong(blocks, [v]) == blocks[v].instructions
  {
    assert [v][..0] == [];
  }

  lemma AlongFront(blocks: seq<BasicBlock>, p: seq<nat>)
    requires InRange(blocks, p) && p != []
    ensures InRange(blocks, p[..|p| - 1])
    ensures InstructionsAlong(blocks, p) ==
            InstructionsAlong(blocks, p[..|p| - 1]) + blocks[p[|p| - 1]].instructions
  {
  }

  /** The expanded walk runs through the original graph and executes the same instructions. */
  ghost predicate ExpansionRight(blocks: seq<BasicBlock>, entry: nat, a: nat, b: nat, p: seq<nat>, q: seq<nat>)
    requires a < |blocks| && b < |blocks|
  {
    && EntryWalk(blocks, entry, q) && InRange(MergedGraph(blocks, a, b), p) && p != []
    && p[|p| - 1] != b && q[|q| - 1] == (if p[|p| - 1] == a then b else p[|p| - 1])
    && InstructionsAlong(blocks, q) == InstructionsAlong(MergedGraph(blocks, a, b), p)
  }

  lemma {:induction false} ExpandedWalk(blocks: seq<BasicBlock>, entry: nat, a: nat, b: nat, p: seq<nat>)
    requires WellFormed(blocks, entry) && Mergeable(blocks, entry, a, b)
    requires EntryWalk(MergedGraph(blocks, a, b), entry, p)
    ensures ExpansionRight(blocks, entry, a, b, p, Expanded(p, a, b))
  {
    var g, n := MergedGraph(blocks, a, b), |p| - 1;
    if n == 0 {
      assert p == [entry];
      StartExpanded(blocks, entry, a, b);
    } else {
      WalkFront(g, entry, p);
      ExpandedWalk(blocks, entry, a, b, p[..n]);
      AppendExpanded(blocks, entry, a, b, p, Expanded(p[..n], a, b));
    }
    hide MergedGraph, WellFormed, ExpansionRight, EntryWalk;
  }

  lemma AppendExpanded(blocks: seq<BasicBlock>, entry: nat, a: nat, b: nat, p: seq<nat>, q: seq<nat>)
    requires WellFormed(blocks, entry) && Mergeable(blocks, entry, a, b)
    requires EntryWalk(MergedGraph(blocks, a, b), entry, p) && |p| > 1
    requires ExpansionRight(blocks, entry, a, b, p[..|p| - 1], q)
    ensures ExpansionRight(blocks, entry, a, b, p, q + (if p[|p| - 1] == a then [a, b] else [p[|p| - 1]]))
  {
    hide MergedGraph, Edge, WellFormed;
    var g, n := MergedGraph(blocks, a, b), |p| - 1;
    var u, v := p[n - 1], p[n];
    WalkFront(g, entry, p);
    AlongFront(g, p);
    MergedEdges(blocks, entry, a, b, u, v);
    MergedEdges(blocks, entry, a, b, b, v);
    MergedEdges(blocks, entry, a, b, u, b);
    MergedEdges(blocks, entry, a, b, a, b);
    ExpandedStep(blocks, entry, a, b, q, v);
    hide InstructionsAlong, Mergeable;
  }

  lemma WalkStart(blocks: seq<BasicBlock>, entry: nat)
    requires entry < |blocks|
    ensures EntryWalk(blocks, entry, [entry])
    ensures InstructionsAlong(blocks, [entry]) == blocks[entry].instructions
  {
    AlongOne(blocks, entry);
  }

  lemma StartExpanded(blocks: seq<BasicBlock>, entry: nat, a: nat, b: nat)
    requires WellFormed(blocks, entry) && Mergeable(blocks, entry, a, b)
    ensures ExpansionRight(blocks, entry, a, b, [entry], Expanded([entry], a, b))
  {
    assert a < |blocks| && b < |blocks| && entry < |blocks| && entry != b;
    hide MergedGraph, Edge, WellFormed, InstructionsAlong, Expanded, EntryWalk, Mergeable;
    ExpandedOne(entry, a, b);
    WalkStart(MergedGraph(blocks, a, b), entry);
    StartAlong(blocks, entry, a, b);
  }

  lemma StartAlong(blocks: seq<BasicBlock>, entry: nat, a: nat, b: nat)
    requires WellFormed(blocks, entry) && Mergeable(blocks, entry, a, b) && entry < |blocks| && entry != b
    ensures var q := if entry == a then [a, b] else [entry];
            && EntryWalk(blocks, entry, q)
            && InstructionsAlong(blocks, q) == MergedGraph(blocks, a, b)[entry].instructions
  {
    assert a < |blocks| && b < |blocks|;
    hide MergedGraph, Edge, WellFormed, InstructionsAlong, EntryWalk, Mergeable;
    MergedInstructions(blocks, entry, a, b, entry);
    if entry == a {
      MergedEdges(blocks, entry, a, b, a, b);
      WalkPair(blocks, a, b);
    } else {
      WalkStart(blocks, entry);
    }
  }

  lemma WalkPair(blocks: seq<BasicBlock>, a: nat, b: nat)
    requires a < |blocks| && b < |blocks| && Edge(blocks, a, b)
    ensures EntryWalk(blocks, a, [a, b])
    ensures InstructionsAlong(blocks, [a, b]) == blocks[a].instructions + blocks[b].instructions
  {
    WalkStart(blocks, a);
    WalkExtend(blocks, a, [a], b);
    assert [a, b] == [a] + [b];
    hide Edge, InstructionsAlong, EntryWalk;
  }

  lemma ExpandedOne(v: nat, a: nat, b: nat)
    ensures Expanded([v], a, b) == if v == a then [a, b] else [v]
  {
    assert [v][..0] == [];
  }

  lemma ExpandedStep(blocks: seq<BasicBlock>, entry: nat, a: nat, b: nat, q: seq<nat>, v: nat)
    requires WellFormed(blocks, entry) && Mergeable(blocks, entry, a, b)
    requires EntryWalk(blocks, entry, q) && v < |blocks| && v != b && Edge(blocks, q[|q| - 1], v)
    ensures var r := q + (if v == a then [a, b] else [v]);
            && EntryWalk(blocks, entry, r) && r[|r| - 1] == (if v == a then b else v)
            && InstructionsAlong(blocks, r) ==
                 InstructionsAlong(blocks, q) + MergedGraph(blocks, a, b)[v].instructions
  {
    assert a < |blocks| && b < |blocks| && q != [];
    hide Edge, BlockOk, WellFormed, Mergeable, MergedGraph, EntryWalk, Walk, InstructionsAlong;
    MergedInstructions(blocks, entry, a, b, v);
    WalkExtend(blocks, entry, q, v);
    if v == a {
      MergedEdges(blocks, entry, a, b, a, b);
      WalkExtend(blocks, entry, q + [v], b);
      assert q + [v] + [b] == q + [a, b];
      Regroup(InstructionsAlong(blocks, q), blocks[a].instructions, blocks[b].instructions);
    }
  }

  /** A walk through the original graph, with the visits of b dropped. */
  function Without(p: seq<nat>, b: nat): seq<nat> {
    if p == [] then []
    else if p[|p| - 1] == b then Without(p[..|p| - 1], b)
    else Without(p[..|p| - 1], b) + [p[|p| - 1]]
  }

  /** The shortened walk runs through the merged graph and executes the same instructions, or those of
      b as well when the original stopped after a. */
  ghost predicate ShorteningRight(blocks: seq<BasicBlock>, entry: nat, a: nat, b: nat, p: seq<nat>, q: seq<nat>)
    requires a < |blocks| && b < |blocks|
  {
    && EntryWalk(MergedGraph(blocks, a, b), entry, q) && InRange(blocks, p) && p != []
    && q[|q| - 1] == (if p[|p| - 1] == b then a else p[|p| - 1])
    && InstructionsAlong(MergedGraph(blocks, a, b), q) ==
         InstructionsAlong(blocks, p) + (if p[|p| - 1] == a then blocks[b].instructions else [])
  }

  lemma {:induction false} WithoutWalk(blocks: seq<BasicBlock>, entry: nat, a: nat, b: nat, p: seq<nat>)
    requires WellFormed(blocks, entry) && Mergeable(blocks, entry, a, b)
    requires EntryWalk(blocks, entry, p)
    ensures ShorteningRight(blocks, entry, a, b, p, Without(p, b))
  {
    var n := |p| - 1;
    if n == 0 {
      assert p == [entry];
      StartWithout(blocks, entry, a, b);
    } else {
      WalkFront(blocks, entry, p);
      WithoutWalk(blocks, entry, a, b, p[..n]);
      WithoutStep(blocks, entry, a, b, p, Without(p[..n], b));
    }
    hide MergedGraph, WellFormed, ShorteningRight, EntryWalk;
  }

  lemma StartWithout(blocks: seq<BasicBlock>, entry: nat, a: nat, b: nat)
    requires WellFormed(blocks, entry) && Mergeable(blocks, entry, a, b)
    ensures ShorteningRight(blocks, entry, a, b, [entry], Without([entry], b))
  {
    assert [entry][..0] == [] && Without([entry], b) == [entry];
    MergedInstructions(blocks, entry, a, b, entry);
    AlongOne(blocks, entry);
    AlongOne(MergedGraph(blocks, a, b), entry);
    hide MergedGraph, Edge, WellFormed, InstructionsAlong, Without;
  }

  lemma WithoutStep(blocks: seq<BasicBlock>, entry: nat, a: nat, b: nat, p: seq<nat>, q: seq<nat>)
    requires WellFormed(blocks, entry) && Mergeable(blocks, entry, a, b)
    requires EntryWalk(blocks, entry, p) && |p| > 1
    requires ShorteningRight(blocks, entry, a, b, p[..|p| - 1], q)
    ensures ShorteningRight(blocks, entry, a, b, p, if p[|p| - 1] == b then q else q + [p[|p| - 1]])
  {
    assert InRange(blocks, p) && p[|p| - 1] < |blocks| && p[..|p| - 1] != [];
    hide MergedGraph, Edge, WellFormed, InstructionsAlong, EntryWalk, Walk, BlockOk, Mergeable, ShorteningRight;
    if p[|p| - 1] == b {
      WithoutStepInto(blocks, entry, a, b, p, q);
    } else {
      WithoutStepElsewhere(blocks, entry, a, b, p, q);
    }
  }

  lemma WithoutStepInto(blocks: seq<BasicBlock>, entry: nat, a: nat, b: nat, p: seq<nat>, q: seq<nat>)
    requires WellFormed(blocks, entry) && Mergeable(blocks, entry, a, b)
    requires EntryWalk(blocks, entry, p) && |p| > 1 && p[|p| - 1] == b
    requires ShorteningRight(blocks, entry, a, b, p[..|p| - 1], q)
    ensures ShorteningRight(blocks, entry, a, b, p, q)
  {
    assert InRange(blocks, p);
    hide MergedGraph, Edge, WellFormed, InstructionsAlong, EntryWalk, Walk, BlockOk;
    WalkFront(blocks, entry, p);
    AlongFront(blocks, p);
    MergedEdges(blocks, entry, a, b, p[|p| - 2], b);
  }

  lemma WithoutStepElsewhere(blocks: seq<BasicBlock>, entry: nat, a: nat, b: nat, p: seq<nat>, q: seq<nat>)
    requires WellFormed(blocks, entry) && Mergeable(blocks, entry, a, b)
    requires EntryWalk(blocks, entry, p) && |p| > 1 && p[|p| - 1] != b
    requires ShorteningRight(blocks, entry, a, b, p[..|p| - 1], q)
    ensures ShorteningRight(blocks, entry, a, b, p, q + [p[|p| - 1]])
  {
    assert InRange(blocks, p) && p[|p| - 1] < |blocks|;
    hide MergedGraph, Edge, WellFormed, InstructionsAlong, EntryWalk, Walk, BlockOk;
    var u, v := p[|p| - 2], p[|p| - 1];
    WalkFront(blocks, entry, p);
    AlongFront(blocks, p);
    MergedInstructions(blocks, entry, a, b, v);
    WithoutEdge(blocks, entry, a, b, u, v);
    hide Mergeable;
    WalkExtend(MergedGraph(blocks, a, b), entry, q, v);
    Regroup(InstructionsAlong(blocks, p[..|p| - 1]), blocks[v].instructions, blocks[b].instructions);
  }

  lemma Regroup(x: seq<Instruction>, y: seq<Instruction>, z: seq<Instruction>)
    ensures x + (y + z) == x + y + z && x + y + [] == x + y && x + [] == x
  {
  }

  /** An edge not into b stays an edge of the merged graph, where a stands for b. */
  lemma WithoutEdge(blocks: seq<BasicBlock>, entry: nat, a: nat, b: nat, u: nat, v: nat)
    requires WellFormed(blocks, entry) && Mergeable(blocks, entry, a, b) && Edge(blocks, u, v) && v != b
    ensures u != a && Edge(MergedGraph(blocks, a, b), if u == b then a else u, v)
  {
    assert a != b;
    hide MergedGraph, Edge, WellFormed, Mergeable;
    MergedEdges(blocks, entry, a, b, u, v);
    MergedEdges(blocks, entry, a, b, a, v);
  }

  lemma TraceBefore(blocks: seq<BasicBlock>, entry: nat, a: nat, b: nat, t: seq<Instruction>)
    requires WellFormed(blocks, entry) && Mergeable(blocks, entry, a, b)
    requires IsTrace(MergedGraph(blocks, a, b), entry, t)
    ensures IsTrace(blocks, entry, t)
  {
    hide MergedGraph, WellFormed;
    var p :| EntryWalk(MergedGraph(blocks, a, b), entry, p) && t <= InstructionsAlong(MergedGraph(blocks, a, b), p);
    ExpandedWalk(blocks, entry, a, b, p);
    var q := Expanded(p, a, b);
    assert EntryWalk(blocks, entry, q) && t <= InstructionsAlong(blocks, q);
  }

  lemma TraceAfter(blocks: seq<BasicBlock>, entry: nat, a: nat, b: nat, t: seq<Instruction>)
    requires WellFormed(blocks, entry) && Mergeable(blocks, entry, a, b)
    requires IsTrace(blocks, entry, t)
    ensures IsTrace(MergedGraph(blocks, a, b), entry, t)
  {
    var p :| EntryWalk(blocks, entry, p) && t <= InstructionsAlong(blocks, p);
    WithoutWalk(blocks, entry, a, b, p);
    var g, q := MergedGraph(blocks, a, b), Without(p, b);
    hide MergedGraph, WellFormed, Mergeable;
    assert EntryWalk(g, entry, q) && t <= InstructionsAlong(g, q);
  }

  /** One merge changes no trace, also when b leads back to a. */
  lemma MergeKeepsTraces(blocks: seq<BasicBlock>, entry: nat, a: nat, b: nat)
    requires WellFormed(blocks, entry) && Mergeable(blocks, entry, a, b)
    ensures SameTraces(blocks, entry, MergedGraph(blocks, a, b), entry)
  {
    hide MergedGraph, WellFormed;
    forall t ensures IsTrace(blocks, entry, t) <==> IsTrace(MergedGraph(blocks, a, b), entry, t) {
      if IsTrace(blocks, entry, t) {
        TraceAfter(blocks, entry, a, b, t);
      }
      if IsTrace(MergedGraph(blocks, a, b), entry, t) {
        TraceBefore(blocks, entry, a, b, t);
      }
    }
  }

  // ----- Reachability before and after -----

  lemma ReachedByEntryWalk(blocks: seq<BasicBlock>, entry: nat, v: nat)
    requires WellFormed(blocks, entry) && Reaches(blocks, entry, v)
    ensures exists p :: EntryWalk(blocks, entry, p) && p[|p| - 1] == v
  {
    var p :| WalkBetween(blocks, p, entry, v);
    forall i | 0 <= i < |p| ensures p[i] < |blocks| {
      if i > 0 {
        assert Edge(blocks, p[i - 1], p[i]);
        EdgesInRange(blocks, entry, p[i - 1], p[i]);
      }
    }
    assert EntryWalk(blocks, entry, p);
  }

  lemma MergedReachesLess(blocks: seq<BasicBlock>, entry: nat, a: nat, b: nat, v: nat)
    requires WellFormed(blocks, entry) && Mergeable(blocks, entry, a, b)
    requires Reaches(MergedGraph(blocks, a, b), entry, v)
    ensures v != b && Reaches(blocks, entry, v) && v < |blocks|
  {
    var g := MergedGraph(blocks, a, b);
    MergedWellFormed(blocks, entry, a, b);
    ReachedByEntryWalk(g, entry, v);
    var p :| EntryWalk(g, entry, p) && p[|p| - 1] == v;
    ExpandedWalk(blocks, entry, a, b, p);
    var q := Expanded(p, a, b);
    hide MergedGraph, WellFormed, Expanded;
    if v == a {
      var k := |q| - 2;
      AVisited(blocks, entry, a, b, q);
    } else {
      assert WalkBetween(blocks, q, entry, v);
    }
  }

  lemma AVisited(blocks: seq<BasicBlock>, entry: nat, a: nat, b: nat, q: seq<nat>)
    requires WellFormed(blocks, entry) && Mergeable(blocks, entry, a, b)
    requires EntryWalk(blocks, entry, q) && q[|q| - 1] == b
    ensures Reaches(blocks, entry, a)
  {
    var n := |q| - 1;
    WalkFront(blocks, entry, q);
    MergedEdges(blocks, entry, a, b, q[n - 1], b);
    assert WalkBetween(blocks, q[..n], entry, a);
    hide Edge;
  }

  lemma MergeKeepsNonEmpty(blocks: seq<BasicBlock>, entry: nat, a: nat, b: nat)
    requires WellFormed(blocks, entry) && Mergeable(blocks, entry, a, b) && ReachableNonEmpty(blocks, entry)
    ensures ReachableNonEmpty(MergedGraph(blocks, a, b), entry)
  {
    var g := MergedGraph(blocks, a, b);
    forall v: nat | Reaches(g, entry, v) ensures v < |g| && g[v].instructions != [] {
      MergedReachesLess(blocks, entry, a, b, v);
      MergedInstructions(blocks, entry, a, b, v);
    }
    hide MergedGraph, WellFormed, Reaches;
  }

  // ----- Progress -----

  ghost function NonEmptyCount(blocks: seq<BasicBlock>): nat {
    if blocks == [] then 0
    else NonEmptyCount(blocks[..|blocks| - 1]) + (if blocks[|blocks| - 1].instructions != [] then 1 else 0)
  }

  lemma {:induction false} FewerNonEmpty(g: seq<BasicBlock>, h: seq<BasicBlock>)
    requires |g| == |h|
    requires forall i :: 0 <= i < |g| ==> (h[i].instructions != [] ==> g[i].instructions != [])
    ensures NonEmptyCount(h) <= NonEmptyCount(g)
    ensures (exists i :: 0 <= i < |g| && g[i].instructions != [] && h[i].instructions == []) ==>
              NonEmptyCount(h) < NonEmptyCount(g)
  {
    if g != [] {
      FewerNonEmpty(g[..|g| - 1], h[..|h| - 1]);
      if i :| 0 <= i < |g| && g[i].instructions != [] && h[i].instructions == [] {
        if i < |g| - 1 {
          assert g[..|g| - 1][i].instructions != [] && h[..|h| - 1][i].instructions == [];
        }
      }
    }
  }

  /** Every merge empties one non-empty block, so merging comes to an end. */
  lemma MergeShrinks(blocks: seq<BasicBlock>, entry: nat, a: nat, b: nat)
    requires Mergeable(blocks, entry, a, b)
    ensures NonEmptyCount(MergedGraph(blocks, a, b)) < NonEmptyCount(blocks)
  {
    var g := MergedGraph(blocks, a, b);
    forall i: nat | i < |blocks|
      ensures g[i].instructions != [] ==> blocks[i].instructions != []
      ensures i == b ==> g[i].instructions == []
    {
      MergedInstructions(blocks, entry, a, b, i);
    }
    assert blocks[b].instructions != [] && g[b].instructions == [];
    hide MergedGraph;
    FewerNonEmpty(blocks, g);
  }
}
