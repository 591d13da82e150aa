/** The control-flow graph object of core/control_flow_graph.cc. */
module ControlFlow {
  import opened Mips
  import opened Blocks
  import opened PostOrder
  import opened Merging
  import opened Compaction
  import opened Leaders
  import opened Linking
  import opened Pruning
  import opened Slicing
  import opened Wrappers

  /** vram lies in the address range of the block. */
  predicate Covers(b: BasicBlock, vram: bv32) {
    b.instructions != [] && b.startVram <= vram && vram <= b.endVram
  }

  // ----- Edge list -----

  function AllOutgoing(blocks: seq<BasicBlock>): seq<CfgEdge> {
    if blocks == [] then [] else AllOutgoing(blocks[..|blocks| - 1]) + blocks[|blocks| - 1].outgoing
  }

  ghost predicate OwnEdges(b: BasicBlock, i: nat) {
    forall e :: e in b.outgoing ==> e.fromId == i
  }

  lemma {:induction false} AllOutgoingCounts(blocks: seq<BasicBlock>, e: CfgEdge)
    requires forall i :: 0 <= i < |blocks| ==> OwnEdges(blocks[i], i)
    ensures multiset(AllOutgoing(blocks))[e] ==
            if e.fromId < |blocks| then multiset(blocks[e.fromId].outgoing)[e] else 0
  {
    if blocks != [] {
      var n := |blocks| - 1;
      assert OwnEdges(blocks[n], n);
      OwnCount(blocks[n], n, e);
      hide OwnEdges;
      assert forall i :: 0 <= i < n ==> blocks[..n][i] == blocks[i];
      AllOutgoingCounts(blocks[..n], e);
    }
  }

  lemma OwnCount(b: BasicBlock, n: nat, e: CfgEdge)
    requires OwnEdges(b, n)
    ensures e.fromId != n ==> multiset(b.outgoing)[e] == 0
  {
  }

  /** The edge list of a linked graph is, as a multiset, the union of the outgoing edges. */
  lemma EdgeListIsUnion(blocks: seq<BasicBlock>, edges: seq<CfgEdge>)
    requires Linked(blocks) && EdgeListAgrees(blocks, edges)
    ensures multiset(edges) == multiset(AllOutgoing(blocks))
  {
    forall i: nat | i < |blocks| ensures OwnEdges(blocks[i], i) {
      assert BlockOk(blocks, i);
    }
    hide OwnEdges, Linked;
    forall e: CfgEdge ensures multiset(edges)[e] == multiset(AllOutgoing(blocks))[e] {
      AllOutgoingCounts(blocks, e);
    }
    hide AllOutgoing, EdgeListAgrees;
  }

  // ----- Coalescing -----

  /** The addresses a recovered switch jumps to; a default of zero is none. */
  ghost function JumpTableTargets(tables: seq<JumpTable>): set<bv32> {
    (set t | t in tables && t.defaultTargetVram != 0 :: t.defaultTargetVram) +
    (set t, e | t in tables && e in t.entries :: e)
  }

  predicate IsControl(x: Instruction) {
    x.IsBranch() || x.IsJump() || x.IsCall()
  }

  /** Block a ends by falling through, to one block alone. */
  predicate OnlyFallsThrough(b: BasicBlock) {
    && b.instructions != []
    && |b.successors| == 1
    && |b.outgoing| == 1 && b.outgoing[0].kind.Fallthrough?
    && !b.HasBranch() && !b.HasReturn() && !b.HasSwitch()
    && !(b.Terminator().Some? && IsControl(b.Terminator().value))
  }

  /** Block a absorbs the block it falls through to. */
  ghost predicate Absorbs(blocks: seq<BasicBlock>, entry: nat, tables: seq<JumpTable>, a: nat) {
    && a < |blocks| && OnlyFallsThrough(blocks[a])
    && var b := blocks[a].successors[0];
       && b != a && b != entry && Reaches(blocks, entry, b)
       && b < |blocks| && blocks[b].instructions != []
       && blocks[b].predecessors == [a]
       && blocks[b].startVram !in JumpTableTargets(tables)
  }

  ghost predicate SomethingToMerge(blocks: seq<BasicBlock>, entry: nat, tables: seq<JumpTable>) {
    exists a :: Reaches(blocks, entry, a) && Absorbs(blocks, entry, tables, a)
  }

  lemma AbsorbsIsMergeable(blocks: seq<BasicBlock>, entry: nat, tables: seq<JumpTable>, a: nat)
    requires Absorbs(blocks, entry, tables, a)
    ensures Mergeable(blocks, entry, a, blocks[a].successors[0])
  {
    hide Reaches, JumpTableTargets;
  }

  lemma TargetsNext(tables: seq<JumpTable>, t: JumpTable)
    ensures JumpTableTargets(tables + [t]) ==
            JumpTableTargets(tables) +
            (if t.defaultTargetVram != 0 then {t.defaultTargetVram} else {}) + (set e | e in t.entries)
  {
    var all := tables + [t];
    assert forall u :: u in all <==> u in tables || u == t;
    forall x
      ensures x in JumpTableTargets(all) <==>
        x in JumpTableTargets(tables) || (t.defaultTargetVram != 0 && x == t.defaultTargetVram) || x in t.entries
    {
    }
  }

  method CollectJumpTableTargets(tables: seq<JumpTable>) returns (targets: set<bv32>)
    ensures targets == JumpTableTargets(tables)
  {
    targets := {};
    for i := 0 to |tables|
      invariant targets == JumpTableTargets(tables[..i])
    {
      var t := tables[i];
      if t.defaultTargetVram != 0 {
        targets := targets + {t.defaultTargetVram};
      }
      targets := targets + set e | e in t.entries;
      TargetsNext(tables[..i], t);
      assert tables[..i + 1] == tables[..i] + [t];
    }
    assert tables[..|tables|] == tables;
  }

  lemma SameTracesTransitive(g: seq<BasicBlock>, e: nat, h: seq<BasicBlock>, f: nat, k: seq<BasicBlock>, d: nat)
    requires SameTraces(g, e, h, f) && SameTraces(h, f, k, d)
    ensures SameTraces(g, e, k, d)
  {
    hide IsTrace;
  }

  // ----- Renaming a predecessor in several blocks -----

  function Repointed(blocks: seq<BasicBlock>, succs: seq<nat>, b: nat, a: nat): (r: seq<BasicBlock>)
    ensures |r| == |blocks|
  {
    seq(|blocks|, i requires 0 <= i < |blocks| =>
      if i in succs then blocks[i].(predecessors := Renamed(blocks[i].predecessors, b, a)) else blocks[i])
  }

  lemma RenamedTwice(ids: seq<nat>, b: nat, a: nat)
    ensures Renamed(Renamed(ids, b, a), b, a) == Renamed(ids, b, a)
  {
  }

  lemma RepointedNext(blocks: seq<BasicBlock>, succs: seq<nat>, b: nat, a: nat, s: nat)
    requires s < |blocks|
    ensures var g := Repointed(blocks, succs, b, a);
            Repointed(blocks, succs + [s], b, a) == g[s := g[s].(predecessors := Renamed(g[s].predecessors, b, a))]
  {
    RenamedTwice(blocks[s].predecessors, b, a);
    hide Renamed;
  }

  lemma RepointedOutside(blocks: seq<BasicBlock>, succs: seq<nat>, b: nat, a: nat, s: nat)
    requires s >= |blocks|
    ensures Repointed(blocks, succs + [s], b, a) == Repointed(blocks, succs, b, a)
  {
    hide Renamed;
  }

  lemma RepointedAll(blocks: seq<BasicBlock>, a: nat, b: nat)
    requires a < |blocks| && b < |blocks| && a != b
    ensures var g := blocks[a := Absorbed(blocks[a], blocks[b], a)];
            var h := Repointed(g, blocks[b].successors, b, a);
            h[b := Emptied(h[b])] == MergedGraph(blocks, a, b)
  {
    hide Renamed, FromBlock;
  }

  // ----- The renumbering loops -----

  method NumberKept(kept: seq<nat>) returns (m: map<nat, nat>)
    requires Distinct(kept)
    ensures Numbering(kept, m)
  {
    m := map[];
    for k := 0 to |kept|
      invariant Numbering(kept[..k], m)
    {
      m := m[kept[k] := k];
    }
    assert kept[..|kept|] == kept;
  }

  method TranslatePredecessors(ids: seq<nat>, m: map<nat, nat>) returns (r: seq<nat>)
    ensures r == TranslatedOnce(ids, m)
  {
    r := [];
    for i := 0 to |ids|
      invariant r == TranslatedOnce(ids[..i], m)
    {
      assert ids[..i + 1][..i] == ids[..i];
      if ids[i] in m && m[ids[i]] !in r {
        r := r + [m[ids[i]]];
      }
    }
    assert ids[..|ids|] == ids;
  }

  method TranslateSuccessors(ids: seq<nat>, m: map<nat, nat>) returns (r: seq<nat>)
    ensures r == Translated(ids, m)
  {
    r := [];
    for i := 0 to |ids|
      invariant r == Translated(ids[..i], m)
    {
      assert ids[..i + 1][..i] == ids[..i];
      if ids[i] in m {
        r := r + [m[ids[i]]];
      }
    }
    assert ids[..|ids|] == ids;
  }

  method TranslateOutgoing(outgoing: seq<CfgEdge>, m: map<nat, nat>, from: nat) returns (r: seq<CfgEdge>)
    ensures r == TranslatedEdges(outgoing, m, from)
  {
    r := [];
    for i := 0 to |outgoing|
      invariant r == TranslatedEdges(outgoing[..i], m, from)
    {
      assert outgoing[..i + 1][..i] == outgoing[..i];
      var e := outgoing[i];
      if e.toId in m {
        r := r + [CfgEdge(from, m[e.toId], e.kind)];
      }
    }
    assert outgoing[..|outgoing|] == outgoing;
  }

  /** Ids of the reachable non-empty blocks, in ascending order. */
  method CollectKept(blocks: seq<BasicBlock>, reachable: set<nat>) returns (ids: seq<nat>)
    ensures InRange(blocks, ids) && Distinct(ids)
    ensures forall v: nat :: v in ids <==> v in reachable && v < |blocks| && blocks[v].instructions != []
  {
    ids := [];
    for i := 0 to |blocks|
      invariant InRange(blocks, ids) && Distinct(ids)
      invariant forall v: nat :: v in ids <==> v in reachable && v < i && blocks[v].instructions != []
    {
      if i in reachable && blocks[i].instructions != [] {
        ids := ids + [i];
      }
    }
  }

  lemma SameMembers(s: seq<nat>, t: seq<nat>)
    requires multiset(s) == multiset(t)
    ensures forall v: nat :: v in s <==> v in t
  {
    forall v: nat ensures v in s <==> v in t {
      assert v in multiset(s) <==> v in s;
      assert v in multiset(t) <==> v in t;
    }
  }

  lemma CompactedPrefix(blocks: seq<BasicBlock>, kept: seq<nat>, m: map<nat, nat>, k: nat)
    requires InRange(blocks, kept) && k < |kept|
    ensures CompactedGraph(blocks, kept[..k + 1], m) ==
            CompactedGraph(blocks, kept[..k], m) + [CompactedBlock(blocks[kept[k]], m, k)]
  {
    hide CompactedBlock;
  }

  lemma AllOutgoingNext(blocks: seq<BasicBlock>, b: BasicBlock)
    ensures AllOutgoing(blocks + [b]) == AllOutgoing(blocks) + b.outgoing
  {
    assert (blocks + [b])[..|blocks|] == blocks;
  }

  class ControlFlowGraph {
    var entryBlockId: nat
    var blocks: seq<BasicBlock>
    var edges: seq<CfgEdge>
    var jumpTables: seq<JumpTable>
    var vramToBlockIndex: map<int, nat>

    /** Well-formed, with something to execute in every reachable block. */
    ghost predicate Valid()
      reads this
    {
      WellFormed(blocks, entryBlockId) && ReachableNonEmpty(blocks, entryBlockId)
    }

    method PostOrder() returns (order: seq<nat>)
      ensures if blocks == [] then order == [] else IsPostOrder(blocks, entryBlockId, order)
    {
      order := ComputePostOrder(blocks, entryBlockId);
    }

    method ReversePostOrder() returns (rpo: seq<nat>)
      ensures if blocks == [] then rpo == [] else IsPostOrder(blocks, entryBlockId, Reversed(rpo))
      ensures blocks != [] ==> forall v: nat :: v in rpo <==> Reaches(blocks, entryBlockId, v)
    {
      rpo := ComputeReversePostOrder(blocks, entryBlockId);
    }

    /** The block that starts at vram, else the first one whose range holds it. */
    method FindBlockByVram(vram: bv32) returns (r: Option<nat>)
      requires IndexDescribes(blocks, vramToBlockIndex)
      ensures r.Some? ==> r.value < |blocks| && blocks[r.value].instructions != []
      ensures r.Some? ==> blocks[r.value].startVram == vram || Covers(blocks[r.value], vram)
      ensures (exists i :: 0 <= i < |blocks| && blocks[i].instructions != [] && blocks[i].startVram == vram) ==>
                r.Some? && blocks[r.value].startVram == vram &&
                forall i :: r.value < i < |blocks| && blocks[i].instructions != [] ==> blocks[i].startVram != vram
      ensures r.Some? && blocks[r.value].startVram != vram ==>
                forall i :: 0 <= i < r.value ==> !Covers(blocks[i], vram)
      ensures r.None? ==> forall i :: 0 <= i < |blocks| ==> !Covers(blocks[i], vram)
    {
      hide Address;
      var key := Address(vram);
      if key in vramToBlockIndex && vramToBlockIndex[key] < |blocks| &&
         blocks[vramToBlockIndex[key]].startVram == vram {
        return Some(vramToBlockIndex[key]);
      }
      if key in vramToBlockIndex {
        AddressInjective(blocks[vramToBlockIndex[key]].startVram, vram);
      }
      hide Covers;
      for i := 0 to |blocks|
        invariant forall j :: 0 <= j < i ==> !Covers(blocks[j], vram)
      {
        if Covers(blocks[i], vram) {
          assert blocks[i].instructions != [] by { CoveringIsNonEmpty(blocks[i], vram); }
          return Some(i);
        }
      }
      r := None;
    }

    method RebuildVramIndex()
      modifies this`vramToBlockIndex
      ensures IndexDescribes(blocks, vramToBlockIndex)
    {
      NothingIndexed();
      hide IndexDescribes, Address;
      vramToBlockIndex := map[];
      for i := 0 to |blocks|
        invariant IndexDescribes(blocks[..i], vramToBlockIndex)
      {
        IndexNext(blocks[..i], blocks[i], vramToBlockIndex);
        assert blocks[..i + 1] == blocks[..i] + [blocks[i]];
        if blocks[i].instructions != [] {
          vramToBlockIndex := vramToBlockIndex[Address(blocks[i].startVram) := i];
        }
      }
      assert blocks[..|blocks|] == blocks;
    }
  
    /** The reachable non-empty blocks, ranked by entry and address. */
    method RankKept() returns (kept: seq<nat>, m: map<nat, nat>)
      requires blocks != []
      ensures KeptOrder(blocks, entryBlockId, kept) && Numbering(kept, m)
    {
      hide Reaches, IsPostOrder, Sorted, Numbering, Distinct;
      var rpo := ReversePostOrder();
      var reachable := set v | v in rpo;
      var ids := CollectKept(blocks, reachable);
      kept := SortKept(blocks, entryBlockId, ids);
      SameMembers(kept, ids);
      SortedIsDistinct(blocks, entryBlockId, kept);
      m := NumberKept(kept);
    }

    /** Keeps the reachable non-empty blocks, under the numbering that ranks them by entry and address. */
    method CompactReachableBlocks() returns (ghost kept: seq<nat>, ghost m: map<nat, nat>)
      modifies this
      ensures jumpTables == old(jumpTables)
      ensures old(blocks) == [] ==>
        && blocks == [] && entryBlockId == old(entryBlockId)
        && edges == old(edges) && vramToBlockIndex == old(vramToBlockIndex)
      ensures old(blocks) != [] ==>
        && KeptOrder(old(blocks), old(entryBlockId), kept) && Numbering(kept, m)
        && blocks == CompactedGraph(old(blocks), kept, m)
        && edges == AllOutgoing(blocks) && entryBlockId == 0
        && IndexDescribes(blocks, vramToBlockIndex)
    {
      kept, m := [], map[];
      if blocks == [] {
        return;
      }
      var keptIds, oldToNew := RankKept();
      kept, m := keptIds, oldToNew;
      hide Reaches, Sorted, CompactedGraph, IndexDescribes, Numbering, AllOutgoing;
      var newBlocks := RenumberBlocks(keptIds, oldToNew);
      entryBlockId := 0;
      blocks := newBlocks;
      RebuildVramIndex();
      hide KeptOrder;
    }

    /** The loop that builds the new blocks and refills the edge list. */
    method RenumberBlocks(kept: seq<nat>, m: map<nat, nat>) returns (newBlocks: seq<BasicBlock>)
      requires InRange(blocks, kept)
      modifies this`edges
      ensures newBlocks == CompactedGraph(blocks, kept, m)
      ensures edges == AllOutgoing(newBlocks)
    {
      hide Translated, TranslatedOnce, TranslatedEdges, CompactedGraph, AllOutgoing;
      newBlocks := [];
      edges := [];
      EmptyGraph(blocks, kept, m);
      for k := 0 to |kept|
        invariant newBlocks == CompactedGraph(blocks, kept[..k], m)
        invariant edges == AllOutgoing(newBlocks)
      {
        var blk := blocks[kept[k]];
        var newPreds := TranslatePredecessors(blk.predecessors, m);
        var newSuccs := TranslateSuccessors(blk.successors, m);
        var newOut := TranslateOutgoing(blk.outgoing, m, k);
        blk := blk.(id := k, predecessors := newPreds, successors := newSuccs, outgoing := newOut);
        CompactedPrefix(blocks, kept, m, k);
        AllOutgoingNext(newBlocks, blk);
        edges := edges + newOut;
        newBlocks := newBlocks + [blk];
      }
      assert kept[..|kept|] == kept;
    }
  
    /** Block a takes over everything of block b, and b is emptied. */
    method AbsorbSuccessor(a: nat, b: nat)
      requires a < |blocks| && b < |blocks| && a != b
      modifies this`blocks
      ensures blocks == MergedGraph(old(blocks), a, b)
    {
      hide Renamed, FromBlock, Repointed, MergedGraph;
      var blkA, blkB := blocks[a], blocks[b];
      blkA := blkA.(instructions := blkA.instructions + blkB.instructions, endVram := blkB.endVram);
      if blkB.jumpTable.Some? {
        blkA := blkA.(jumpTable := blkB.jumpTable);
      }
      blkA := blkA.(successors := blkB.successors, outgoing := FromBlock(blkB.outgoing, a));
      blocks := blocks[a := blkA];
      assert blkA == Absorbed(old(blocks)[a], old(blocks)[b], a);
      RepointPredecessors(blkB.successors, b, a);
      RepointedAll(old(blocks), a, b);
      blkB := blocks[b];
      blocks := blocks[b := blkB.(instructions := [], predecessors := [], successors := [], outgoing := [])];
    }

    method RepointPredecessors(succs: seq<nat>, b: nat, a: nat)
      modifies this`blocks
      ensures blocks == Repointed(old(blocks), succs, b, a)
    {
      RepointedNone(blocks, b, a);
      hide Renamed, Repointed;
      for k := 0 to |succs|
        invariant blocks == Repointed(old(blocks), succs[..k], b, a)
      {
        assert succs[..k + 1] == succs[..k] + [succs[k]];
        if succs[k] < |blocks| {
          RepointedNext(old(blocks), succs[..k], b, a, succs[k]);
          var blk := blocks[succs[k]];
          blocks := blocks[succs[k] := blk.(predecessors := Renamed(blk.predecessors, b, a))];
        } else {
          RepointedOutside(old(blocks), succs[..k], b, a, succs[k]);
        }
      }
      assert succs[..|succs|] == succs;
    }

    /** Whether block a may absorb the block it falls through to. */
    method MayAbsorb(a: nat, reachable: set<nat>, targets: set<bv32>) returns (ok: bool)
      requires forall v: nat :: v in reachable <==> Reaches(blocks, entryBlockId, v)
      requires targets == JumpTableTargets(jumpTables)
      ensures ok <==> Absorbs(blocks, entryBlockId, jumpTables, a)
    {
      hide Reaches, JumpTableTargets, IsControl;
      if a >= |blocks| || !OnlyFallsThrough(blocks[a]) {
        return false;
      }
      var b := blocks[a].successors[0];
      if b == a || b == entryBlockId || b !in reachable {
        return false;
      }
      if b >= |blocks| {
        return false;
      }
      ok := blocks[b].instructions != [] && blocks[b].predecessors == [a] && blocks[b].startVram !in targets;
    }

    /** One pass in reverse post-order, up to the first merge. */
    method MergeOnce(targets: set<bv32>) returns (merged: bool, ghost a: nat)
      requires blocks != [] && targets == JumpTableTargets(jumpTables)
      modifies this`blocks
      ensures merged <==> SomethingToMerge(old(blocks), entryBlockId, jumpTables)
      ensures !merged ==> blocks == old(blocks)
      ensures merged ==>
        Absorbs(old(blocks), entryBlockId, jumpTables, a) &&
        blocks == MergedGraph(old(blocks), a, old(blocks)[a].successors[0])
    {
      hide Reaches, JumpTableTargets, IsPostOrder, Absorbs, MergedGraph;
      merged, a := false, 0;
      var rpo := ReversePostOrder();
      var reachable := set v | v in rpo;
      for k := 0 to |rpo|
        invariant blocks == old(blocks)
        invariant forall j :: 0 <= j < k ==> !Absorbs(blocks, entryBlockId, jumpTables, rpo[j])
      {
        var ok := MayAbsorb(rpo[k], reachable, targets);
        if ok {
          merged, a := true, rpo[k];
          AbsorbsInRange(blocks, entryBlockId, jumpTables, a);
          AbsorbSuccessor(rpo[k], blocks[rpo[k]].successors[0]);
          return;
        }
      }
    }

    /** Merges fall-through blocks until none can be merged, then compacts the graph. Nothing that the
        graph executes changes. */
    method CoalesceContiguousBlocks() returns (anyMerged: bool, ghost fused: seq<BasicBlock>, ghost kept: seq<nat>)
      requires Valid()
      modifies this
      ensures Valid() && jumpTables == old(jumpTables)
      ensures SameTraces(old(blocks), old(entryBlockId), blocks, entryBlockId)
      ensures anyMerged <==>
        |old(blocks)| >= 2 && SomethingToMerge(old(blocks), old(entryBlockId), jumpTables)
      ensures !anyMerged ==>
        && blocks == old(blocks) && entryBlockId == old(entryBlockId)
        && edges == old(edges) && vramToBlockIndex == old(vramToBlockIndex)
      ensures anyMerged ==>
        && !SomethingToMerge(fused, old(entryBlockId), jumpTables)
        && Isomorphic(fused, old(entryBlockId), blocks, kept)
        && entryBlockId == 0 && edges == AllOutgoing(blocks) && IndexDescribes(blocks, vramToBlockIndex)
    {
      fused, kept := [], [];
      SameTracesReflexive(blocks, entryBlockId);
      hide WellFormed, ReachableNonEmpty, SameTraces, JumpTableTargets, SomethingToMerge, NonEmptyCount,
        Absorbs, Numbering, KeptOrder, IndexDescribes, Isomorphic, AllOutgoing;
      if |blocks| < 2 {
        return false, fused, kept;
      }
      anyMerged := FuseBlocks();
      if anyMerged {
        fused := blocks;
        ghost var m;
        kept, m := CompactReachableBlocks();
        CompactionKeeps(fused, old(entryBlockId), kept, m);
        SameTracesTransitive(old(blocks), old(entryBlockId), fused, old(entryBlockId), blocks, 0);
      }
    }

    /** The passes over the graph, each up to its first merge, until one finds nothing to merge. */
    method FuseBlocks() returns (anyMerged: bool)
      requires Valid() && |blocks| >= 2
      modifies this`blocks
      ensures Valid() && blocks != []
      ensures SameTraces(old(blocks), entryBlockId, blocks, entryBlockId)
      ensures anyMerged <==> SomethingToMerge(old(blocks), entryBlockId, jumpTables)
      ensures !anyMerged ==> blocks == old(blocks)
      ensures !SomethingToMerge(blocks, entryBlockId, jumpTables)
    {
      SameTracesReflexive(blocks, entryBlockId);
      hide WellFormed, ReachableNonEmpty, SameTraces, JumpTableTargets, SomethingToMerge, NonEmptyCount, Absorbs;
      var targets := CollectJumpTableTargets(jumpTables);
      anyMerged := false;
      var mergedInPass := true;
      while mergedInPass
        invariant Valid() && blocks != []
        invariant SameTraces(old(blocks), entryBlockId, blocks, entryBlockId)
        invariant anyMerged ==> SomethingToMerge(old(blocks), entryBlockId, jumpTables)
        invariant !anyMerged ==> blocks == old(blocks)
        invariant !mergedInPass ==> !SomethingToMerge(blocks, entryBlockId, jumpTables)
        decreases NonEmptyCount(blocks), mergedInPass
      {
        ghost var before := blocks;
        ghost var a;
        mergedInPass, a := MergeOnce(targets);
        if mergedInPass {
          MergeStep(before, entryBlockId, jumpTables, a);
          SameTracesTransitive(old(blocks), entryBlockId, before, entryBlockId, blocks, entryBlockId);
          anyMerged := true;
        }
      }
    }

    // ----- Building the graph -----

    constructor (tables: seq<JumpTable>)
      ensures blocks == [] && edges == [] && jumpTables == tables && vramToBlockIndex == map[] && entryBlockId == 0
    {
      entryBlockId, blocks, edges, jumpTables, vramToBlockIndex := 0, [], [], tables, map[];
    }

    method AddEdge(from: nat, to: nat, kind: EdgeType)
      requires from < |blocks| && to < |blocks|
      modifies this`blocks, this`edges
      ensures blocks == WithEdge(old(blocks), from, to, kind)
      ensures edges == old(edges) + [CfgEdge(from, to, kind)]
    {
      var e := CfgEdge(from, to, kind);
      edges := edges + [e];
      var b := blocks[from];
      blocks := blocks[from := b.(outgoing := b.outgoing + [e])];
      b := blocks[from];
      blocks := blocks[from := b.(successors := b.successors + [to])];
      b := blocks[to];
      blocks := blocks[to := b.(predecessors := b.predecessors + [from])];
    }

    /** The graph while block b is being wired. */
    ghost predicate Wired(base: seq<BasicBlock>, b: nat)
      reads this
    {
      Wiring(blocks, edges, vramToBlockIndex, base, b)
    }

    /** Wires one edge of block b. */
    method Wire(ghost base: seq<BasicBlock>, b: nat, to: nat, kind: EdgeType)
      requires Wired(base, b) && b < |base| <= |blocks| && to < |blocks|
      modifies this`blocks, this`edges
      ensures Wired(base, b) && SameCode(old(blocks), blocks) && |blocks| == |old(blocks)|
      ensures blocks[b].outgoing == old(blocks)[b].outgoing + [CfgEdge(b, to, kind)]
    {
      WithEdgeWired(blocks, edges, vramToBlockIndex, base, b, to, kind);
      WithEdgeSameCode(blocks, b, to, kind);
      WithEdgeAt(blocks, b, to, kind, b);
      hide Wiring, WithEdge, SameCode;
      AddEdge(b, to, kind);
    }

    /** The block at an address; a stub is made for an address outside the code. */
    method GetOrCreateTargetBlock(ghost base: seq<BasicBlock>, b: nat, vram: bv32) returns (id: nat)
      requires Wired(base, b) && b < |base| <= |blocks|
      modifies this`blocks, this`vramToBlockIndex
      ensures Wired(base, b) && SameCode(old(blocks), blocks) && blocks[b].outgoing == old(blocks)[b].outgoing
      ensures id < |blocks| && blocks[id].startVram == vram
    {
      WiringLookup(blocks, edges, vramToBlockIndex, base, b, vram);
      hide Wiring, WiredAt, OwnBlockAt;
      var x := Address(vram);
      hide Address;
      if x in vramToBlockIndex {
        return vramToBlockIndex[x];
      }
      StubWired(blocks, edges, vramToBlockIndex, base, b, vram);
      id := |blocks|;
      blocks := blocks + [Stub(id, vram)];
      vramToBlockIndex := vramToBlockIndex[x := id];
    }

    /** The edges of a recovered switch. */
    method ConnectSwitch(ghost base: seq<BasicBlock>, b: nat, entries: seq<bv32>)
      requires Wired(base, b) && b < |base| <= |blocks| && blocks[b].outgoing == []
      modifies this`blocks, this`edges
      ensures Wired(base, b) && SameCode(old(blocks), blocks) && |blocks| == |old(blocks)|
      ensures SwitchRight(blocks, |base|, entries, blocks[b].outgoing)
    {
      SameCodeReflexive(blocks);
      hide Wiring, SameCode, OwnBlockAt;
      var added: set<bv32> := {};
      for k := 0 to |entries|
        invariant Wired(base, b) && SameCode(old(blocks), blocks) && |blocks| == |old(blocks)|
        invariant added == set e | e in entries[..k]
        invariant SwitchRight(blocks, |base|, entries[..k], blocks[b].outgoing)
      {
        ghost var g := blocks;
        added := AddSwitchTarget(base, b, entries[..k], entries[k], added);
        assert entries[..k + 1] == entries[..k] + [entries[k]];
        SameCodeTransitive(old(blocks), g, blocks);
      }
      assert entries[..|entries|] == entries;
    }

    method AddSwitchTarget(
      ghost base: seq<BasicBlock>, b: nat, ghost before: seq<bv32>, v: bv32, added: set<bv32>)
      returns (added': set<bv32>)
      requires Wired(base, b) && b < |base| <= |blocks|
      requires added == set e | e in before
      requires SwitchRight(blocks, |base|, before, blocks[b].outgoing)
      modifies this`blocks, this`edges
      ensures Wired(base, b) && SameCode(old(blocks), blocks) && |blocks| == |old(blocks)|
      ensures added' == added + {v}
      ensures SwitchRight(blocks, |base|, before + [v], blocks[b].outgoing)
    {
      added' := added + {v};
      SameCodeReflexive(blocks);
      WiringLookup(blocks, edges, vramToBlockIndex, base, b, v);
      hide Wiring, SameCode, OwnBlockAt, SwitchRight;
      var x := Address(v);
      hide Address;
      if v !in added && x in vramToBlockIndex {
        var to := vramToBlockIndex[x];
        ghost var g, out := blocks, blocks[b].outgoing;
        WiringHasBase(blocks, edges, vramToBlockIndex, base, b);
        Wire(base, b, to, JumpEdge);
        SwitchStaysRight(g, blocks, |base|, before, out);
        SameLead(g, blocks, CfgEdge(b, to, JumpEdge), JumpEdge, v);
        SwitchNewTarget(blocks, |base|, before, out, v, CfgEdge(b, to, JumpEdge));
      } else {
        SwitchSeenBefore(blocks, |base|, before, blocks[b].outgoing, v);
      }
    }

    /** The taken edge of a branch, and its fall-through edge unless it always branches. */
    method ConnectBranch(ghost base: seq<BasicBlock>, b: nat, x: Instruction)
      requires Wired(base, b) && b < |base| <= |blocks| && blocks[b].outgoing == []
      modifies this`blocks, this`edges, this`vramToBlockIndex
      ensures Wired(base, b) && SameCode(old(blocks), blocks)
      ensures BranchRight(blocks, |base|, x, blocks[b].outgoing)
    {
      hide Wiring, SameCode, OwnBlockAt, Address, FallthroughVram;
      var target := GetOrCreateTargetBlock(base, b, x.BranchTarget());
      ghost var g := blocks;
      WiringHasBase(blocks, edges, vramToBlockIndex, base, b);
      Wire(base, b, target, BranchTaken);
      SameCodeTransitive(old(blocks), g, blocks);
      SameLead(g, blocks, CfgEdge(b, target, BranchTaken), BranchTaken, x.BranchTarget());
      WiringLookup(blocks, edges, vramToBlockIndex, base, b, FallthroughVram(x));
      var next := Address(FallthroughVram(x));
      if !x.IsUnconditionalBranch() && next in vramToBlockIndex {
        var to := vramToBlockIndex[next];
        g := blocks;
        Wire(base, b, to, Fallthrough);
        SameCodeTransitive(old(blocks), g, blocks);
        SameLead(g, blocks, CfgEdge(b, target, BranchTaken), BranchTaken, x.BranchTarget());
        SameLead(g, blocks, CfgEdge(b, to, Fallthrough), Fallthrough, FallthroughVram(x));
        SameOwnBlocks(g, blocks, |base|, FallthroughVram(x));
      }
    }

    /** The edge of an indirect jump whose target the block itself builds. */
    method ConnectIndirect(ghost base: seq<BasicBlock>, b: nat, x: Instruction)
      requires Wired(base, b) && b < |base| <= |blocks| && blocks[b].outgoing == []
      modifies this`blocks, this`edges
      ensures Wired(base, b) && SameCode(old(blocks), blocks)
      ensures IndirectRight(blocks, |base|, IndirectTarget(old(blocks)[b], x), blocks[b].outgoing)
    {
      SameCodeReflexive(blocks);
      hide Wiring, SameCode, OwnBlockAt, Address, ConstantTarget;
      if x.rs.Some? && x.rs.value != RA {
        var target := FindConstantTarget(blocks[b].instructions, x.rs.value);
        if target.Some? {
          WiringLookup(blocks, edges, vramToBlockIndex, base, b, target.value);
          var key := Address(target.value);
          if key in vramToBlockIndex {
            var to := vramToBlockIndex[key];
            Wire(base, b, to, JumpEdge);
            SameLead(old(blocks), blocks, CfgEdge(b, to, JumpEdge), JumpEdge, target.value);
          }
        }
      }
    }

    /** The edge of an unconditional jump. */
    method ConnectJump(ghost base: seq<BasicBlock>, b: nat, vram: bv32)
      requires Wired(base, b) && b < |base| <= |blocks| && blocks[b].outgoing == []
      modifies this`blocks, this`edges, this`vramToBlockIndex
      ensures Wired(base, b) && SameCode(old(blocks), blocks)
      ensures |blocks[b].outgoing| == 1 && LeadsTo(blocks, blocks[b].outgoing[0], JumpEdge, vram)
    {
      hide Wiring, SameCode;
      var target := GetOrCreateTargetBlock(base, b, vram);
      ghost var g := blocks;
      WiringHasBase(blocks, edges, vramToBlockIndex, base, b);
      Wire(base, b, target, JumpEdge);
      SameCodeTransitive(old(blocks), g, blocks);
      SameLead(g, blocks, CfgEdge(b, target, JumpEdge), JumpEdge, vram);
    }

    /** The edges that the terminator of own block b asks for. */
    method ConnectBlock(ghost base: seq<BasicBlock>, n: nat, b: nat)
      requires n == |base| <= |blocks| && b < n && Wired(base, b) && blocks[b].outgoing == []
      modifies this`blocks, this`edges, this`vramToBlockIndex
      ensures Wired(base, b + 1) && |base| <= |blocks|
      ensures b + 1 < n ==> blocks[b + 1].outgoing == []
    {
      SameCodeReflexive(blocks);
      hide Wiring, SameCode, SwitchRight, BranchRight, IndirectRight, IndirectTarget, LeadsTo;
      var t, table := blocks[b].Terminator(), blocks[b].jumpTable;
      if t.Some? && !t.value.IsReturn() {
        var x := t.value;
        if table.Some? {
          ConnectSwitch(base, b, table.value.entries);
        } else if x.opcode.J? {
          ConnectJump(base, b, x.JumpTarget());
        } else if x.IsBranch() {
          ConnectBranch(base, b, x);
        } else if x.opcode.Jr? {
          ConnectIndirect(base, b, x);
        } else if b + 1 < n {
          Wire(base, b, b + 1, Fallthrough);
        }
      }
      SameTerminator(old(blocks), blocks, b);
      WiringHasBase(blocks, edges, vramToBlockIndex, base, b);
      assert EdgesRight(blocks, n, b);
      WiredBlock(blocks, edges, vramToBlockIndex, base, b);
    }

    /** The edges of all own blocks. */
    method ConnectBlocks()
      requires Linked(blocks) && EdgeListAgrees(blocks, edges) && IndexDescribes(blocks, vramToBlockIndex)
      requires forall i :: 0 <= i < |blocks| ==> blocks[i].instructions != [] && blocks[i].outgoing == []
      modifies this`blocks, this`edges, this`vramToBlockIndex
      ensures Wired(old(blocks), |old(blocks)|)
    {
      ghost var base := blocks;
      WiringStarts(blocks, edges, vramToBlockIndex);
      hide Wiring, Linked, EdgeListAgrees, IndexDescribes;
      var n := |blocks|;
      for b := 0 to n
        invariant n == |base| <= |blocks| && Wired(base, b)
        invariant b < n ==> blocks[b].outgoing == []
      {
        ConnectBlock(base, n, b);
      }
    }

    /** Cuts off the blocks that the entry does not reach. */
    method PruneUnreachable(reachable: set<nat>)
      requires Linked(blocks)
      modifies this`blocks, this`edges
      ensures blocks == Pruned(old(blocks), reachable, |old(blocks)|)
      ensures edges == EdgesFrom(old(edges), reachable)
    {
      PrunedAtStart(blocks, reachable);
      hide Pruned, Linked;
      for b := 0 to |blocks|
        invariant |blocks| == |old(blocks)| && edges == old(edges)
        invariant blocks == Pruned(old(blocks), reachable, b)
      {
        PrunedNext(old(blocks), reachable, b);
        if b !in reachable {
          CutOff(old(blocks), reachable, b);
        }
      }
      edges := FilterEdges(edges, reachable);
    }

    /** Removes one unreachable block from the predecessors of its successors, and its own edges. */
    method CutOff(ghost all: seq<BasicBlock>, ghost reachable: set<nat>, b: nat)
      requires b < |blocks| == |all| && blocks == Pruned(all, reachable, b)
      modifies this`blocks
      ensures var g := ErasedFrom(old(blocks), all[b].successors, b);
              blocks == g[b := g[b].(successors := [], outgoing := [])]
    {
      assert blocks[b].successors == all[b].successors by { PrunedLater(all, reachable, b); }
      hide Pruned, ErasedFrom;
      var succs := blocks[b].successors;
      ErasedFromNone(blocks, b);
      for k := 0 to |succs|
        invariant blocks == ErasedFrom(old(blocks), succs[..k], b)
      {
        assert succs[..k + 1] == succs[..k] + [succs[k]];
        var s := succs[k];
        if s < |blocks| {
          ErasedFromNext(old(blocks), succs[..k], b, s);
          var preds := Erase(blocks[s].predecessors, b);
          blocks := blocks[s := blocks[s].(predecessors := preds)];
        } else {
          ErasedFromOutside(old(blocks), succs[..k], b, s);
        }
      }
      assert succs[..|succs|] == succs;
      blocks := blocks[b := blocks[b].(successors := [], outgoing := [])];
    }

    /** Removes unreachable all-nop blocks from the end. */
    method DropPadding(reachable: set<nat>, ghost n: nat)
      requires Trimmed(blocks, edges, vramToBlockIndex, blocks, n, entryBlockId, reachable)
      modifies this`blocks, this`vramToBlockIndex
      ensures Trimmed(blocks, edges, vramToBlockIndex, old(blocks), n, entryBlockId, reachable)
    {
      hide Address, AllNops;
      var go := true;
      while go && |blocks| > 1 && blocks[|blocks| - 1].id !in reachable
        invariant Trimmed(blocks, edges, vramToBlockIndex, old(blocks), n, entryBlockId, reachable)
        decreases |blocks|, go
      {
        hide Trimmed;
        var back := blocks[|blocks| - 1];
        go := IsPadding(back);
        if go {
          TrimOne(blocks, edges, vramToBlockIndex, old(blocks), n, entryBlockId, reachable);
          vramToBlockIndex := vramToBlockIndex - {Address(back.startVram)};
          blocks := blocks[..|blocks| - 1];
        }
      }
    }

    /** The blocks cut at the leaders, with all their edges. */
    method Connect(code: seq<Instruction>, starts: seq<nat>) returns (ghost base: seq<BasicBlock>)
      requires blocks == [] && edges == [] && StartsInRange(code, starts)
      modifies this`blocks, this`edges, this`vramToBlockIndex
      ensures |base| == |starts| && AllSlicesRight(base, code, jumpTables, starts)
      ensures Wired(base, |base|)
    {
      hide StartsInRange, AllSlicesRight, IndexDescribes, Wiring, EdgeListAgrees, Linked;
      var cut, index := AssembleBlocks(code, jumpTables, starts);
      FreshLinked(cut, code, jumpTables, starts);
      blocks, vramToBlockIndex := cut, index;
      base := cut;
      ConnectBlocks();
    }

    /** The edges of unreachable blocks and the padding at the end are dropped. */
    method Prune(ghost base: seq<BasicBlock>)
      requires Wired(base, |base|) && entryBlockId == 0 && 0 < |base|
      modifies this`blocks, this`edges, this`vramToBlockIndex
      ensures PrunedFrom(old(blocks), base, blocks, edges, vramToBlockIndex)
    {
      WiredIsLinked(blocks, edges, vramToBlockIndex, base);
      assert |base| <= |blocks|;
      hide Wiring, Linked, EdgeListAgrees, IndexDescribes, IsStub, EdgesRight, Pruned, SameCode, EdgesFrom, Trimmed;
      var reachable := FindReachable(blocks, entryBlockId);
      PrunedIsTrimmed(blocks, edges, vramToBlockIndex, |base|, reachable);
      PruneUnreachable(reachable);
      DropPadding(reachable, |base|);
      assert Trimmed(
        blocks, edges, vramToBlockIndex, Pruned(old(blocks), reachable, |old(blocks)|), |base|, 0, reachable);
    }

    /** Recovers the graph of a function from its instructions. */
    static method Build(code: seq<Instruction>, tables: seq<JumpTable>, divisions: seq<Division>)
      returns (result: Option<ControlFlowGraph>, ghost starts: seq<nat>, ghost own: nat)
      ensures result.None? <==> code == []
      ensures result.Some? ==>
        && fresh(result.value) && result.value.Valid()
        && result.value.entryBlockId == 0 && result.value.jumpTables == tables
        && BuiltFrom(
             result.value.blocks, result.value.edges, result.value.vramToBlockIndex,
             code, tables, divisions, starts, own)
    {
      starts, own := [], 0;
      if code == [] {
        return None, starts, own;
      }
      hide AllStarts, StartsInRange, AllSlicesRight, Wiring, PrunedFrom, BuiltFrom, WellFormed, ReachableNonEmpty,
        IsLeader;
      var cfg := new ControlFlowGraph(tables);
      var marks := IdentifyLeaders(code, tables, divisions);
      var leaderIndices := CollectStarts(code, tables, divisions, marks);
      starts := leaderIndices;
      ghost var base := cfg.Connect(code, leaderIndices);
      ghost var wired := cfg.blocks;
      SomeStart(code, tables, divisions, starts);
      WiredAgain(wired, cfg.edges, cfg.vramToBlockIndex, base);
      cfg.Prune(base);
      own := if |cfg.blocks| < |base| then |cfg.blocks| else |base|;
      PrunedIsBuilt(cfg.blocks, cfg.edges, cfg.vramToBlockIndex, wired, base, code, tables, divisions, starts);
      result := Some(cfg);
    }
  }

  /** The block holds instructions, and only nops. */
  method IsPadding(b: BasicBlock) returns (allNops: bool)
    ensures allNops ==> AllNops(b.instructions)
    ensures !allNops ==> b.instructions == [] || !AllNops(b.instructions)
  {
    allNops := b.instructions != [];
    for i := 0 to |b.instructions|
      invariant allNops ==> forall k :: 0 <= k < i ==> b.instructions[k].IsNop()
      invariant allNops <==> b.instructions != []
    {
      if !b.instructions[i].IsNop() {
        return false;
      }
    }
  }

  // ----- What Build builds -----

  ghost predicate DistinctAddresses(code: seq<Instruction>) {
    forall i, j :: 0 <= i < j < |code| ==> code[i].vram != code[j].vram
  }

  /** The first blocks are consecutive slices of the code; when some slices are missing at the end they
      held only nops, and nothing follows; what does follow are stubs. */
  ghost predicate TilesCode(
    blocks: seq<BasicBlock>, code: seq<Instruction>, tables: seq<JumpTable>, starts: seq<nat>, own: nat)
  {
    && StartsInRange(code, starts)
    && 0 < own <= |blocks| && own <= |starts|
    && (forall b :: 0 <= b < own ==> SliceRight(blocks[b], code, tables, starts, b))
    && (own < |starts| ==> own == |blocks| && AllNops(code[starts[own]..]))
    && forall i :: own <= i < |blocks| ==> IsStub(blocks[i])
  }

  /** The result of Build: the slices of the code at its leaders, linked by the edges their terminators
      ask for, every edge starting at a reachable block. */
  ghost predicate BuiltFrom(
    blocks: seq<BasicBlock>, edges: seq<CfgEdge>, index: map<int, nat>,
    code: seq<Instruction>, tables: seq<JumpTable>, divisions: seq<Division>, starts: seq<nat>, own: nat)
  {
    && AllStarts(code, tables, divisions, starts)
    && TilesCode(blocks, code, tables, starts, own)
    && Linked(blocks) && EdgeListAgrees(blocks, edges)
    && (forall u: nat, v: nat :: Edge(blocks, u, v) ==> Reaches(blocks, 0, u))
    && (forall b: nat :: b < own && Reaches(blocks, 0, b) ==> EdgesRight(blocks, own, b))
    && (DistinctAddresses(code) ==> IndexDescribes(blocks, index))
  }

  lemma WiredIsLinked(wired: seq<BasicBlock>, edges: seq<CfgEdge>, index: map<int, nat>, base: seq<BasicBlock>)
    requires Wiring(wired, edges, index, base, |base|)
    ensures Linked(wired) && EdgeListAgrees(wired, edges) && IndexDescribes(wired, index) && SameCode(base, wired)
    ensures forall i :: 0 <= i < |base| ==> EdgesRight(wired, |base|, i)
    ensures forall i :: |base| <= i < |wired| ==> IsStub(wired[i])
  {
    hide Linked, EdgeListAgrees, IndexDescribes, EdgesRight, IsStub;
    forall i: nat | i < |wired|
      ensures i < |base| ==> EdgesRight(wired, |base|, i)
      ensures |base| <= i ==> IsStub(wired[i])
    {
      assert WiredAt(wired, |base|, |base|, i);
    }
    assert |base| <= |wired|;
    hide SameCode;
  }

  lemma PrunedStub(wired: seq<BasicBlock>, reachable: set<nat>, i: nat)
    requires i < |wired| && IsStub(wired[i])
    ensures IsStub(Pruned(wired, reachable, |wired|)[i])
  {
    PrunedAt(wired, reachable, i);
    hide Pruned;
  }

  /** Right after pruning, nothing has been trimmed yet. */
  lemma PrunedIsTrimmed(
    wired: seq<BasicBlock>, edges: seq<CfgEdge>, index: map<int, nat>, n: nat, reachable: set<nat>)
    requires Linked(wired) && EdgeListAgrees(wired, edges) && IndexDescribes(wired, index)
    requires IsReachableSet(wired, 0, reachable) && 0 < n <= |wired|
    requires forall i :: n <= i < |wired| ==> IsStub(wired[i])
    ensures var full := Pruned(wired, reachable, |wired|);
            Trimmed(full, EdgesFrom(edges, reachable), index, full, n, 0, reachable)
  {
    var full := Pruned(wired, reachable, |wired|);
    PrunedLinked(wired, reachable);
    PrunedListed(wired, edges, reachable);
    PrunedEdgesReachable(wired, 0, reachable);
    SameCodeSameIndex(wired, full, index);
    hide Pruned, Linked, EdgeListAgrees, OnlyReachableEdges, IsReachableSet, IndexDescribes, IsStub, SameCode, EdgesFrom;
    forall i: nat | n <= i < |full| ensures IsStub(full[i]) {
      PrunedStub(wired, reachable, i);
    }
  }

  lemma {:induction false} NopsFrom(code: seq<Instruction>, starts: seq<nat>, k: nat)
    requires StartsInRange(code, starts) && k < |starts|
    requires forall b :: k <= b < |starts| ==>
      starts[b] <= EndOf(code, starts, b) <= |code| && AllNops(code[starts[b]..EndOf(code, starts, b)])
    ensures AllNops(code[starts[k]..])
    decreases |starts| - k
  {
    var lo, hi := starts[k], EndOf(code, starts, k);
    assert code[lo..] == code[lo..hi] + code[hi..];
    if k + 1 < |starts| {
      NopsFrom(code, starts, k + 1);
    }
  }

  lemma SameSlice(
    x: BasicBlock, y: BasicBlock, code: seq<Instruction>, tables: seq<JumpTable>, starts: seq<nat>, b: nat)
    requires b < |starts| && StartsInRange(code, starts) && SliceRight(x, code, tables, starts, b)
    requires y == x.(outgoing := y.outgoing, successors := y.successors, predecessors := y.predecessors)
    ensures SliceRight(y, code, tables, starts, b)
    ensures y.instructions == code[starts[b]..EndOf(code, starts, b)]
  {
  }

  /** The own blocks that are left tile the code up to trailing nops. */
  lemma TrimmedTiles(
    blocks: seq<BasicBlock>, full: seq<BasicBlock>, base: seq<BasicBlock>,
    code: seq<Instruction>, tables: seq<JumpTable>, starts: seq<nat>)
    requires StartsInRange(code, starts) && |base| == |starts| && AllSlicesRight(base, code, tables, starts)
    requires SameCode(base, full) && 0 < |blocks| <= |full| && blocks == full[..|blocks|] && |base| > 0
    requires forall i :: |blocks| <= i < |full| ==> AllNops(full[i].instructions)
    requires forall i :: |base| <= i < |full| ==> IsStub(full[i])
    ensures TilesCode(blocks, code, tables, starts, if |blocks| < |base| then |blocks| else |base|)
  {
    var own := if |blocks| < |base| then |blocks| else |base|;
    hide StartsInRange, IsStub, AllNops, SliceRight;
    forall b: nat | b < |base|
      ensures SliceRight(full[b], code, tables, starts, b)
      ensures starts[b] <= EndOf(code, starts, b) <= |code|
      ensures full[b].instructions == code[starts[b]..EndOf(code, starts, b)]
    {
      assert SliceRight(base[b], code, tables, starts, b);
      SliceBounds(base[b], code, tables, starts, b);
      SameSlice(base[b], full[b], code, tables, starts, b);
    }
    if own < |starts| {
      NopsFrom(code, starts, own);
    }
  }

  lemma SliceBounds(x: BasicBlock, code: seq<Instruction>, tables: seq<JumpTable>, starts: seq<nat>, b: nat)
    requires b < |starts| && StartsInRange(code, starts) && SliceRight(x, code, tables, starts, b)
    ensures starts[b] < EndOf(code, starts, b) <= |code|
  {
    hide FirstTable;
  }

  lemma DistinctSlices(
    full: seq<BasicBlock>, base: seq<BasicBlock>, code: seq<Instruction>, tables: seq<JumpTable>, starts: seq<nat>)
    requires StartsInRange(code, starts) && |base| == |starts| && AllSlicesRight(base, code, tables, starts)
    requires SameCode(base, full) && DistinctAddresses(code)
    ensures DistinctStarts(full, |base|)
  {
    forall i: nat, j: nat | i < j < |base| ensures full[i].startVram != full[j].startVram {
      assert SliceRight(base[i], code, tables, starts, i) && SliceRight(base[j], code, tables, starts, j);
      assert starts[i] < starts[j];
      hide FirstTable;
    }
  }

  lemma ReachedIsNonEmpty(blocks: seq<BasicBlock>, entry: nat)
    requires WellFormed(blocks, entry) && AllNonEmpty(blocks)
    ensures ReachableNonEmpty(blocks, entry)
  {
    forall v: nat | Reaches(blocks, entry, v) ensures v < |blocks| {
      ReachedByEntryWalk(blocks, entry, v);
    }
    hide Reaches, WellFormed;
  }

  lemma TiledIsNonEmpty(
    blocks: seq<BasicBlock>, code: seq<Instruction>, tables: seq<JumpTable>, starts: seq<nat>, own: nat)
    requires TilesCode(blocks, code, tables, starts, own)
    ensures AllNonEmpty(blocks)
  {
    hide FirstTable, AllNops;
    forall i: nat | i < |blocks| ensures blocks[i].instructions != [] {
      if i < own {
        assert SliceRight(blocks[i], code, tables, starts, i);
      } else {
        assert IsStub(blocks[i]);
      }
    }
  }

  /** The edges of a reachable own block survive pruning and trimming. */
  lemma EdgesRightInTheEnd(
    blocks: seq<BasicBlock>, wired: seq<BasicBlock>, n: nat, reachable: set<nat>, b: nat)
    requires var full := Pruned(wired, reachable, |wired|);
      |blocks| <= |full| && blocks == full[..|blocks|]
    requires n <= |wired| && b < n && b < |blocks| && b in reachable
    requires Linked(blocks) && Linked(wired) && EdgesRight(wired, n, b)
    ensures EdgesRight(blocks, if |blocks| < n then |blocks| else n, b)
  {
    var full := Pruned(wired, reachable, |wired|);
    PrunedLinked(wired, reachable);
    PrunedAt(wired, reachable, b);
    assert BlockOk(blocks, b);
    assert blocks[b] == full[b];
    hide Pruned, EdgesRight, SameCode, Linked;
    EdgesStayRight(wired, full, n, b);
    EdgesRightInPrefix(full, n, |blocks|, b);
  }

  /** What is left after trimming is what Build promises. */
  lemma TrimmedIsBuilt(
    blocks: seq<BasicBlock>, edges: seq<CfgEdge>, index: map<int, nat>, wired: seq<BasicBlock>, base: seq<BasicBlock>,
    code: seq<Instruction>, tables: seq<JumpTable>, divisions: seq<Division>, starts: seq<nat>, reachable: set<nat>)
    requires AllStarts(code, tables, divisions, starts) && StartsInRange(code, starts)
    requires |base| == |starts| && AllSlicesRight(base, code, tables, starts)
    requires Linked(wired) && SameCode(base, wired)
    requires forall i :: 0 <= i < |base| ==> EdgesRight(wired, |base|, i)
    requires Trimmed(blocks, edges, index, Pruned(wired, reachable, |wired|), |base|, 0, reachable)
    ensures BuiltFrom(
      blocks, edges, index, code, tables, divisions, starts, if |blocks| < |base| then |blocks| else |base|)
    ensures WellFormed(blocks, 0) && ReachableNonEmpty(blocks, 0)
  {
    var full := Pruned(wired, reachable, |wired|);
    var own := if |blocks| < |base| then |blocks| else |base|;
    assert |starts| > 0;
    PrunedLinked(wired, reachable);
    SameCodeTransitive(base, wired, full);
    hide Pruned, EdgesRight, SameCode, Linked, EdgeListAgrees, IndexDescribes, IsStub, AllNops, AllSlicesRight,
      StartsInRange, AllStarts, TilesCode, DistinctStarts, DistinctAddresses, WellFormed, ReachableNonEmpty, Reaches, Edge;
    TrimmedTiles(blocks, full, base, code, tables, starts);
    TiledIsNonEmpty(blocks, code, tables, starts, own);
    LinkedIsWellFormed(blocks, 0);
    ReachedIsNonEmpty(blocks, 0);
    if DistinctAddresses(code) {
      DistinctSlices(full, base, code, tables, starts);
    }
    forall b: nat | b < own && Reaches(blocks, 0, b) ensures EdgesRight(blocks, own, b) {
      assert b in reachable;
      EdgesRightInTheEnd(blocks, wired, |base|, reachable, b);
    }
  }

  /** wired without the edges of unreachable blocks and without padding. */
  ghost predicate PrunedFrom(
    wired: seq<BasicBlock>, base: seq<BasicBlock>, blocks: seq<BasicBlock>, edges: seq<CfgEdge>, index: map<int, nat>)
  {
    exists reachable :: Trimmed(blocks, edges, index, Pruned(wired, reachable, |wired|), |base|, 0, reachable)
  }

  lemma SomeStart(code: seq<Instruction>, tables: seq<JumpTable>, divisions: seq<Division>, starts: seq<nat>)
    requires AllStarts(code, tables, divisions, starts)
    ensures |starts| > 0
  {
  }

  /** The links of a graph with all edges wired. */
  ghost predicate FullyWired(wired: seq<BasicBlock>, base: seq<BasicBlock>) {
    && Linked(wired) && SameCode(base, wired)
    && forall i :: 0 <= i < |base| ==> EdgesRight(wired, |base|, i)
  }

  lemma WiredAgain(wired: seq<BasicBlock>, edges: seq<CfgEdge>, index: map<int, nat>, base: seq<BasicBlock>)
    requires Wiring(wired, edges, index, base, |base|)
    ensures FullyWired(wired, base)
  {
    WiredIsLinked(wired, edges, index, base);
    hide Wiring, Linked, EdgesRight, SameCode;
  }

  lemma PrunedIsBuilt(
    blocks: seq<BasicBlock>, edges: seq<CfgEdge>, index: map<int, nat>, wired: seq<BasicBlock>, base: seq<BasicBlock>,
    code: seq<Instruction>, tables: seq<JumpTable>, divisions: seq<Division>, starts: seq<nat>)
    requires AllStarts(code, tables, divisions, starts) && StartsInRange(code, starts)
    requires |base| == |starts| && AllSlicesRight(base, code, tables, starts)
    requires FullyWired(wired, base) && PrunedFrom(wired, base, blocks, edges, index)
    ensures BuiltFrom(
      blocks, edges, index, code, tables, divisions, starts, if |blocks| < |base| then |blocks| else |base|)
    ensures WellFormed(blocks, 0) && ReachableNonEmpty(blocks, 0)
  {
    var reachable :| Trimmed(blocks, edges, index, Pruned(wired, reachable, |wired|), |base|, 0, reachable);
    hide Trimmed, AllStarts, StartsInRange, AllSlicesRight, Linked, SameCode, EdgesRight, BuiltFrom, WellFormed,
      ReachableNonEmpty, Pruned;
    TrimmedIsBuilt(blocks, edges, index, wired, base, code, tables, divisions, starts, reachable);
  }

  lemma SameTracesReflexive(blocks: seq<BasicBlock>, entry: nat)
    ensures SameTraces(blocks, entry, blocks, entry)
  {
  }

  /** One merge keeps the graph valid and its traces, and makes progress. */
  lemma MergeStep(blocks: seq<BasicBlock>, entry: nat, tables: seq<JumpTable>, a: nat)
    requires WellFormed(blocks, entry) && ReachableNonEmpty(blocks, entry)
    requires Absorbs(blocks, entry, tables, a)
    ensures a < |blocks| && |blocks[a].successors| > 0 && blocks[a].successors[0] < |blocks|
    ensures var g := MergedGraph(blocks, a, blocks[a].successors[0]);
            && WellFormed(g, entry) && ReachableNonEmpty(g, entry)
            && SameTraces(blocks, entry, g, entry)
            && NonEmptyCount(g) < NonEmptyCount(blocks)
  {
    AbsorbsInRange(blocks, entry, tables, a);
    AbsorbsIsMergeable(blocks, entry, tables, a);
    var b := blocks[a].successors[0];
    hide WellFormed, ReachableNonEmpty, SameTraces, Absorbs, Mergeable, NonEmptyCount, MergedGraph;
    MergedWellFormed(blocks, entry, a, b);
    MergeKeepsNonEmpty(blocks, entry, a, b);
    MergeKeepsTraces(blocks, entry, a, b);
    MergeShrinks(blocks, entry, a, b);
  }

  /** Compaction of a valid graph keeps it valid, and keeps its traces. */
  lemma CompactionKeeps(blocks: seq<BasicBlock>, entry: nat, kept: seq<nat>, m: map<nat, nat>)
    requires WellFormed(blocks, entry) && ReachableNonEmpty(blocks, entry)
    requires KeptOrder(blocks, entry, kept) && Numbering(kept, m)
    ensures var h := CompactedGraph(blocks, kept, m);
            && Isomorphic(blocks, entry, h, kept)
            && WellFormed(h, 0) && ReachableNonEmpty(h, 0) && SameTraces(blocks, entry, h, 0)
            && forall k: nat :: k < |h| ==> Reaches(h, 0, k)
  {
    CompactionIsIsomorphic(blocks, entry, kept, m);
    var h := CompactedGraph(blocks, kept, m);
    IsomorphicWellFormed(blocks, entry, h, kept);
    RenumberingKeepsTraces(blocks, entry, h, kept);
    hide SameTraces, Isomorphic, Reaches, KeptOrder, Numbering, CompactedGraph;
    forall k: nat | k < |h| ensures Reaches(h, 0, k) && h[k].instructions != [] {
      OnlyReachableLeft(blocks, entry, h, kept, k);
    }
    forall v: nat | Reaches(h, 0, v) ensures v < |h| {
      ReachedByEntryWalk(h, 0, v);
    }
    hide WellFormed;
  }

  lemma RepointedNone(blocks: seq<BasicBlock>, b: nat, a: nat)
    ensures Repointed(blocks, [], b, a) == blocks
  {
  }

  lemma AbsorbsInRange(blocks: seq<BasicBlock>, entry: nat, tables: seq<JumpTable>, a: nat)
    requires Absorbs(blocks, entry, tables, a)
    ensures a < |blocks| && |blocks[a].successors| > 0
    ensures blocks[a].successors[0] < |blocks| && blocks[a].successors[0] != a
  {
    hide Reaches, JumpTableTargets, IsControl;
  }

  lemma EmptyGraph(blocks: seq<BasicBlock>, kept: seq<nat>, m: map<nat, nat>)
    requires InRange(blocks, kept)
    ensures CompactedGraph(blocks, kept[..0], m) == [] && AllOutgoing([]) == []
  {
  }

  lemma CoveringIsNonEmpty(b: BasicBlock, vram: bv32)
    requires Covers(b, vram)
    ensures b.instructions != []
  {
  }
}
