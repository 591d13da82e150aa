/** Dropping the edges of unreachable blocks, and unreachable padding at the end
    (core/control_flow_graph.cc, end of Build). */
module Pruning {
  import opened Mips
  import opened Blocks
  import opened PostOrder
  import opened Merging
  import opened Linking
  import opened Wrappers

  // ----- Lists without some ids -----

  /** The ids that are reachable or not yet looked at. */
  function Kept(ids: seq<nat>, reachable: set<nat>, k: nat): seq<nat> {
    if ids == [] then []
    else
      var x := ids[|ids| - 1];
      var front := Kept(ids[..|ids| - 1], reachable, k);
      if x in reachable || x >= k then front + [x] else front
  }

  function Erased(ids: seq<nat>, b: nat): seq<nat> {
    if ids == [] then []
    else if ids[|ids| - 1] != b then Erased(ids[..|ids| - 1], b) + [ids[|ids| - 1]]
    else Erased(ids[..|ids| - 1], b)
  }

  lemma {:induction false} ErasedAppend(ids: seq<nat>, x: nat, b: nat)
    ensures Erased(ids + [x], b) == if x != b then Erased(ids, b) + [x] else Erased(ids, b)
  {
    assert (ids + [x])[..|ids|] == ids;
  }

  lemma {:induction false} ErasedTwice(ids: seq<nat>, b: nat)
    ensures Erased(Erased(ids, b), b) == Erased(ids, b)
  {
    if ids != [] {
      var n := |ids| - 1;
      ErasedTwice(ids[..n], b);
      ErasedAppend(Erased(ids[..n], b), ids[n], b);
    }
  }

  lemma {:induction false} KeptNext(ids: seq<nat>, reachable: set<nat>, b: nat)
    ensures b !in reachable ==> Erased(Kept(ids, reachable, b), b) == Kept(ids, reachable, b + 1)
    ensures b in reachable || b !in ids ==> Kept(ids, reachable, b) == Kept(ids, reachable, b + 1)
  {
    if ids != [] {
      var n := |ids| - 1;
      KeptNext(ids[..n], reachable, b);
      ErasedAppend(Kept(ids[..n], reachable, b), ids[n], b);
    }
  }

  lemma {:induction false} KeptAtStart(ids: seq<nat>, reachable: set<nat>)
    ensures Kept(ids, reachable, 0) == ids
  {
    if ids != [] {
      KeptAtStart(ids[..|ids| - 1], reachable);
    }
  }

  lemma {:induction false} KeptCounts(ids: seq<nat>, reachable: set<nat>, k: nat, u: nat)
    ensures multiset(Kept(ids, reachable, k))[u] == if u in reachable || u >= k then multiset(ids)[u] else 0
  {
    if ids != [] {
      var n := |ids| - 1;
      KeptCounts(ids[..n], reachable, k, u);
      assert ids == ids[..n] + [ids[n]];
    }
  }

  lemma {:induction false} KeptMembers(ids: seq<nat>, reachable: set<nat>, k: nat)
    ensures forall i :: 0 <= i < |Kept(ids, reachable, k)| ==>
      Kept(ids, reachable, k)[i] in ids && (Kept(ids, reachable, k)[i] in reachable || Kept(ids, reachable, k)[i] >= k)
  {
    if ids != [] {
      KeptMembers(ids[..|ids| - 1], reachable, k);
    }
  }

  method Erase(ids: seq<nat>, b: nat) returns (r: seq<nat>)
    ensures r == Erased(ids, b)
  {
    r := [];
    for i := 0 to |ids|
      invariant r == Erased(ids[..i], b)
    {
      ErasedAppend(ids[..i], ids[i], b);
      assert ids[..i + 1] == ids[..i] + [ids[i]];
      if ids[i] != b {
        r := r + [ids[i]];
      }
    }
    assert ids[..|ids|] == ids;
  }

  // ----- The pruned graph -----

  function PrunedBlock(x: BasicBlock, reachable: set<nat>, k: nat, i: nat): BasicBlock {
    var y := x.(predecessors := Kept(x.predecessors, reachable, k));
    if i in reachable || i >= k then y else y.(successors := [], outgoing := [])
  }

  /** The graph once the unreachable blocks among the first k have been cut off. */
  function Pruned(blocks: seq<BasicBlock>, reachable: set<nat>, k: nat): (r: seq<BasicBlock>)
    ensures |r| == |blocks|
  {
    seq(|blocks|, i requires 0 <= i < |blocks| => PrunedBlock(blocks[i], reachable, k, i))
  }

  /** The graph with b erased from the predecessors of some blocks. */
  function ErasedFrom(blocks: seq<BasicBlock>, succs: seq<nat>, b: nat): (r: seq<BasicBlock>)
    ensures |r| == |blocks|
  {
    seq(|blocks|, i requires 0 <= i < |blocks| =>
      if i in succs then blocks[i].(predecessors := Erased(blocks[i].predecessors, b)) else blocks[i])
  }

  lemma ErasedFromNext(blocks: seq<BasicBlock>, succs: seq<nat>, b: nat, s: nat)
    requires s < |blocks|
    ensures var g := ErasedFrom(blocks, succs, b);
            ErasedFrom(blocks, succs + [s], b) == g[s := g[s].(predecessors := Erased(g[s].predecessors, b))]
  {
    ErasedTwice(blocks[s].predecessors, b);
    hide Erased;
  }

  lemma ErasedFromOutside(blocks: seq<BasicBlock>, succs: seq<nat>, b: nat, s: nat)
    requires s >= |blocks|
    ensures ErasedFrom(blocks, succs + [s], b) == ErasedFrom(blocks, succs, b)
  {
    hide Erased;
  }

  lemma PrunedAtStart(blocks: seq<BasicBlock>, reachable: set<nat>)
    ensures Pruned(blocks, reachable, 0) == blocks
  {
    forall i: nat | i < |blocks| ensures PrunedBlock(blocks[i], reachable, 0, i) == blocks[i] {
      KeptAtStart(blocks[i].predecessors, reachable);
    }
    hide PrunedBlock;
  }

  lemma PrunedLater(blocks: seq<BasicBlock>, reachable: set<nat>, b: nat)
    requires b < |blocks|
    ensures Pruned(blocks, reachable, b)[b].successors == blocks[b].successors
  {
    hide Kept;
  }

  lemma ErasedFromNone(blocks: seq<BasicBlock>, b: nat)
    ensures ErasedFrom(blocks, [], b) == blocks
  {
    hide Erased;
  }

  lemma PrunedNext(blocks: seq<BasicBlock>, reachable: set<nat>, b: nat)
    requires Linked(blocks) && b < |blocks|
    ensures b in reachable ==> Pruned(blocks, reachable, b + 1) == Pruned(blocks, reachable, b)
    ensures b !in reachable ==>
      var g := ErasedFrom(Pruned(blocks, reachable, b), blocks[b].successors, b);
      Pruned(blocks, reachable, b + 1) == g[b := g[b].(successors := [], outgoing := [])]
  {
    forall i: nat | i < |blocks|
      ensures b in reachable ==>
        PrunedBlock(blocks[i], reachable, b + 1, i) == PrunedBlock(blocks[i], reachable, b, i)
      ensures b !in reachable ==>
        var x := PrunedBlock(blocks[i], reachable, b, i);
        var y := if i in blocks[b].successors then x.(predecessors := Erased(x.predecessors, b)) else x;
        PrunedBlock(blocks[i], reachable, b + 1, i) == if i == b then y.(successors := [], outgoing := []) else y
    {
      PrunedBlockNext(blocks, reachable, b, i);
    }
    hide PrunedBlock, Kept, Erased, Linked;
  }

  lemma PrunedBlockNext(blocks: seq<BasicBlock>, reachable: set<nat>, b: nat, i: nat)
    requires Linked(blocks) && b < |blocks| && i < |blocks|
    ensures b in reachable ==>
      PrunedBlock(blocks[i], reachable, b + 1, i) == PrunedBlock(blocks[i], reachable, b, i)
    ensures b !in reachable ==>
      var x := PrunedBlock(blocks[i], reachable, b, i);
      var y := if i in blocks[b].successors then x.(predecessors := Erased(x.predecessors, b)) else x;
      PrunedBlock(blocks[i], reachable, b + 1, i) == if i == b then y.(successors := [], outgoing := []) else y
  {
    KeptNext(blocks[i].predecessors, reachable, b);
    assert MultiplicityAgrees(blocks, b, i);
    assert b in multiset(blocks[i].predecessors) <==> b in blocks[i].predecessors;
    assert i in multiset(blocks[b].successors) <==> i in blocks[b].successors;
    hide Kept, Erased, Linked;
  }

  // ----- What pruning keeps -----

  ghost predicate IsReachableSet(blocks: seq<BasicBlock>, entry: nat, reachable: set<nat>) {
    forall v: nat :: v in reachable <==> Reaches(blocks, entry, v)
  }

  lemma PrunedAt(blocks: seq<BasicBlock>, reachable: set<nat>, i: nat)
    requires i < |blocks|
    ensures var x := Pruned(blocks, reachable, |blocks|)[i];
      && x == blocks[i].(outgoing := x.outgoing, successors := x.successors, predecessors := x.predecessors)
      && x.predecessors == Kept(blocks[i].predecessors, reachable, |blocks|)
      && x.successors == (if i in reachable then blocks[i].successors else [])
      && x.outgoing == (if i in reachable then blocks[i].outgoing else [])
  {
    hide Kept;
  }

  lemma PrunedBlockOk(blocks: seq<BasicBlock>, reachable: set<nat>, i: nat)
    requires i < |blocks| && BlockOk(blocks, i)
    ensures BlockOk(Pruned(blocks, reachable, |blocks|), i)
  {
    PrunedAt(blocks, reachable, i);
    KeptMembers(blocks[i].predecessors, reachable, |blocks|);
    hide Pruned, Kept;
  }

  lemma PrunedMultiplicity(blocks: seq<BasicBlock>, reachable: set<nat>, u: nat, v: nat)
    requires u < |blocks| && v < |blocks| && MultiplicityAgrees(blocks, u, v)
    ensures MultiplicityAgrees(Pruned(blocks, reachable, |blocks|), u, v)
  {
    PrunedAt(blocks, reachable, u);
    PrunedAt(blocks, reachable, v);
    KeptCounts(blocks[v].predecessors, reachable, |blocks|, u);
    hide Pruned, Kept;
  }

  lemma PrunedLinked(blocks: seq<BasicBlock>, reachable: set<nat>)
    requires Linked(blocks)
    ensures Linked(Pruned(blocks, reachable, |blocks|))
    ensures SameCode(blocks, Pruned(blocks, reachable, |blocks|))
  {
    var g := Pruned(blocks, reachable, |blocks|);
    hide Pruned, BlockOk, MultiplicityAgrees, Kept;
    forall i: nat | i < |g| ensures BlockOk(g, i) {
      PrunedBlockOk(blocks, reachable, i);
    }
    forall u: nat, v: nat | u < |g| && v < |g| ensures MultiplicityAgrees(g, u, v) {
      PrunedMultiplicity(blocks, reachable, u, v);
    }
    forall i: nat | i < |g| ensures
      g[i] == blocks[i].(outgoing := g[i].outgoing, successors := g[i].successors, predecessors := g[i].predecessors)
    {
      PrunedAt(blocks, reachable, i);
    }
  }

  lemma PrunedEdge(blocks: seq<BasicBlock>, reachable: set<nat>, u: nat, v: nat)
    ensures Edge(Pruned(blocks, reachable, |blocks|), u, v) <==> u in reachable && Edge(blocks, u, v)
  {
    if u < |blocks| {
      PrunedAt(blocks, reachable, u);
    }
    hide Pruned;
  }

  /** A graph that has every edge out of the blocks reachable in g reaches at least as much. */
  lemma ReachesAsMuch(g: seq<BasicBlock>, h: seq<BasicBlock>, entry: nat, v: nat)
    requires forall u: nat, w: nat :: Reaches(g, entry, u) && Edge(g, u, w) ==> Edge(h, u, w)
    requires Reaches(g, entry, v)
    ensures Reaches(h, entry, v)
  {
    hide Edge;
    var p :| WalkBetween(g, p, entry, v);
    forall i | 0 <= i < |p| - 1 ensures Edge(h, p[i], p[i + 1]) {
      assert Edge(g, p[i], p[i + 1]);
      PrefixReaches(g, p, i);
    }
    assert WalkBetween(h, p, entry, v);
  }

  lemma PrefixReaches(g: seq<BasicBlock>, p: seq<nat>, i: nat)
    requires Walk(g, p) && i < |p|
    ensures Reaches(g, p[0], p[i])
  {
    hide Edge;
    var q := p[..i + 1];
    forall k | 0 <= k < |q| - 1 ensures Edge(g, q[k], q[k + 1]) {
      assert Edge(g, p[k], p[k + 1]);
    }
    assert WalkBetween(g, q, p[0], p[i]);
  }

  lemma PrunedReachesSame(blocks: seq<BasicBlock>, entry: nat, reachable: set<nat>)
    requires IsReachableSet(blocks, entry, reachable)
    ensures IsReachableSet(Pruned(blocks, reachable, |blocks|), entry, reachable)
  {
    hide Pruned, Edge, Reaches;
    var g := Pruned(blocks, reachable, |blocks|);
    forall u: nat, w: nat ensures Edge(g, u, w) <==> u in reachable && Edge(blocks, u, w) {
      PrunedEdge(blocks, reachable, u, w);
    }
    forall v: nat ensures v in reachable <==> Reaches(g, entry, v) {
      if v in reachable {
        ReachesAsMuch(blocks, g, entry, v);
      }
      if Reaches(g, entry, v) {
        ReachesAsMuch(g, blocks, entry, v);
      }
    }
  }

  /** The edges that start in a reachable block. */
  function EdgesFrom(edges: seq<CfgEdge>, reachable: set<nat>): seq<CfgEdge> {
    if edges == [] then []
    else
      var front, e := EdgesFrom(edges[..|edges| - 1], reachable), edges[|edges| - 1];
      if e.fromId in reachable then front + [e] else front
  }

  method FilterEdges(edges: seq<CfgEdge>, reachable: set<nat>) returns (r: seq<CfgEdge>)
    ensures r == EdgesFrom(edges, reachable)
  {
    r := [];
    for i := 0 to |edges|
      invariant r == EdgesFrom(edges[..i], reachable)
    {
      assert edges[..i + 1][..i] == edges[..i];
      if edges[i].fromId in reachable {
        r := r + [edges[i]];
      }
    }
    assert edges[..|edges|] == edges;
  }

  lemma {:induction false} EdgesFromCounts(edges: seq<CfgEdge>, reachable: set<nat>, e: CfgEdge)
    ensures multiset(EdgesFrom(edges, reachable))[e] == if e.fromId in reachable then multiset(edges)[e] else 0
  {
    if edges != [] {
      var n := |edges| - 1;
      EdgesFromCounts(edges[..n], reachable, e);
      assert edges == edges[..n] + [edges[n]];
    }
  }

  lemma PrunedListed(blocks: seq<BasicBlock>, edges: seq<CfgEdge>, reachable: set<nat>)
    requires EdgeListAgrees(blocks, edges)
    ensures EdgeListAgrees(Pruned(blocks, reachable, |blocks|), EdgesFrom(edges, reachable))
  {
    var g := Pruned(blocks, reachable, |blocks|);
    forall e: CfgEdge
      ensures multiset(EdgesFrom(edges, reachable))[e] ==
              if e.fromId < |g| then multiset(g[e.fromId].outgoing)[e] else 0
    {
      EdgesFromCounts(edges, reachable, e);
      if e.fromId < |blocks| {
        PrunedAt(blocks, reachable, e.fromId);
      }
      hide Pruned, EdgesFrom;
    }
  }

  // ----- Dropping a last, unreachable block -----

  /** Only reachable blocks have edges. */
  ghost predicate OnlyReachableEdges(blocks: seq<BasicBlock>, entry: nat, reachable: set<nat>) {
    && IsReachableSet(blocks, entry, reachable)
    && forall u: nat, v: nat :: Edge(blocks, u, v) ==> u in reachable
  }

  lemma PrunedEdgesReachable(blocks: seq<BasicBlock>, entry: nat, reachable: set<nat>)
    requires IsReachableSet(blocks, entry, reachable)
    ensures OnlyReachableEdges(Pruned(blocks, reachable, |blocks|), entry, reachable)
  {
    PrunedReachesSame(blocks, entry, reachable);
    hide Pruned, Edge, Reaches;
    forall u: nat, w: nat ensures
      Edge(Pruned(blocks, reachable, |blocks|), u, w) <==> u in reachable && Edge(blocks, u, w)
    {
      PrunedEdge(blocks, reachable, u, w);
    }
    hide IsReachableSet;
  }

  ghost predicate Isolated(blocks: seq<BasicBlock>, v: nat) {
    && (forall u: nat :: !Edge(blocks, u, v))
    && (forall u: nat :: !Edge(blocks, v, u))
  }

  lemma DroppedIsIsolated(blocks: seq<BasicBlock>, entry: nat, reachable: set<nat>, v: nat)
    requires OnlyReachableEdges(blocks, entry, reachable) && v !in reachable
    ensures Isolated(blocks, v)
  {
    forall u: nat | Edge(blocks, u, v) ensures false {
      ReachesEdge(blocks, entry, u, v);
    }
    hide Reaches, Edge;
  }

  lemma DroppedBlockOk(blocks: seq<BasicBlock>, i: nat)
    requires Linked(blocks) && i < |blocks| - 1
    requires Isolated(blocks, |blocks| - 1)
    ensures BlockOk(blocks[..|blocks| - 1], i)
  {
    var n := |blocks| - 1;
    var x := blocks[i];
    assert BlockOk(blocks, i) && BlockOk(blocks, n);
    assert !Edge(blocks, i, n) && !Edge(blocks, n, i);
    assert n !in x.successors;
    assert MultiplicityAgrees(blocks, n, i);
    assert n in multiset(x.predecessors) <==> n in x.predecessors;
    assert i in multiset(blocks[n].successors) <==> i in blocks[n].successors;
    assert n !in x.predecessors;
    hide Linked;
  }

  lemma DroppedLinked(blocks: seq<BasicBlock>, entry: nat, reachable: set<nat>)
    requires Linked(blocks) && OnlyReachableEdges(blocks, entry, reachable)
    requires |blocks| > 0 && |blocks| - 1 !in reachable
    ensures Linked(blocks[..|blocks| - 1])
  {
    var n := |blocks| - 1;
    DroppedIsIsolated(blocks, entry, reachable, n);
    var g := blocks[..n];
    hide BlockOk;
    forall i: nat | i < |g| ensures BlockOk(g, i) {
      DroppedBlockOk(blocks, i);
    }
    forall u: nat, v: nat | u < |g| && v < |g| ensures MultiplicityAgrees(g, u, v) {
      assert MultiplicityAgrees(blocks, u, v);
    }
  }

  lemma DroppedListed(blocks: seq<BasicBlock>, edges: seq<CfgEdge>)
    requires EdgeListAgrees(blocks, edges) && |blocks| > 0 && blocks[|blocks| - 1].outgoing == []
    ensures EdgeListAgrees(blocks[..|blocks| - 1], edges)
  {
  }

  lemma DroppedReachable(blocks: seq<BasicBlock>, entry: nat, reachable: set<nat>)
    requires OnlyReachableEdges(blocks, entry, reachable)
    requires |blocks| > 0 && |blocks| - 1 !in reachable
    ensures OnlyReachableEdges(blocks[..|blocks| - 1], entry, reachable)
  {
    var n := |blocks| - 1;
    var g := blocks[..n];
    forall u: nat, w: nat ensures Edge(g, u, w) <==> Edge(blocks, u, w) {
      DroppedIsIsolated(blocks, entry, reachable, n);
    }
    hide Edge, Reaches;
    forall v: nat ensures v in reachable <==> Reaches(g, entry, v) {
      if v in reachable {
        ReachesAsMuch(blocks, g, entry, v);
      }
      if Reaches(g, entry, v) {
        ReachesAsMuch(g, blocks, entry, v);
      }
    }
  }

  // ----- Dropping padding -----

  predicate AllNops(code: seq<Instruction>) {
    forall i :: 0 <= i < |code| ==> code[i].IsNop()
  }

  lemma StubIsNotPadding(b: BasicBlock)
    requires IsStub(b)
    ensures !AllNops(b.instructions)
  {
    assert !b.instructions[0].IsNop();
  }

  ghost predicate DistinctStarts(blocks: seq<BasicBlock>, n: nat) {
    forall i, j :: 0 <= i < j < n && j < |blocks| ==> blocks[i].startVram != blocks[j].startVram
  }

  lemma IndexDropped(blocks: seq<BasicBlock>, index: map<int, nat>)
    requires |blocks| > 0 && DistinctStarts(blocks, |blocks|) && IndexDescribes(blocks, index)
    ensures IndexDescribes(blocks[..|blocks| - 1], index - {Address(blocks[|blocks| - 1].startVram)})
  {
    hide Address;
    var n := |blocks| - 1;
    forall i: nat | i < n ensures Address(blocks[i].startVram) != Address(blocks[n].startVram) {
      if Address(blocks[i].startVram) == Address(blocks[n].startVram) {
        AddressInjective(blocks[i].startVram, blocks[n].startVram);
      }
    }
  }

  /** blocks is full without some unreachable padding blocks at the end; n blocks of full are own. */
  ghost predicate Trimmed(
    blocks: seq<BasicBlock>, edges: seq<CfgEdge>, index: map<int, nat>,
    full: seq<BasicBlock>, n: nat, entry: nat, reachable: set<nat>)
  {
    && n <= |full| && 0 < |blocks| <= |full| && blocks == full[..|blocks|]
    && Linked(blocks) && EdgeListAgrees(blocks, edges) && OnlyReachableEdges(blocks, entry, reachable)
    && (forall i :: |blocks| <= i < |full| ==> AllNops(full[i].instructions))
    && (forall i :: n <= i < |full| ==> IsStub(full[i]))
    && (DistinctStarts(full, n) ==> IndexDescribes(blocks, index))
  }

  lemma TrimOne(
    blocks: seq<BasicBlock>, edges: seq<CfgEdge>, index: map<int, nat>,
    full: seq<BasicBlock>, n: nat, entry: nat, reachable: set<nat>)
    requires Trimmed(blocks, edges, index, full, n, entry, reachable)
    requires |blocks| > 1 && blocks[|blocks| - 1].id !in reachable && AllNops(blocks[|blocks| - 1].instructions)
    ensures var k := |blocks| - 1;
            Trimmed(blocks[..k], edges, index - {Address(blocks[k].startVram)}, full, n, entry, reachable)
  {
    var k := |blocks| - 1;
    assert BlockOk(blocks, k);
    hide BlockOk;
    if n <= k {
      StubIsNotPadding(full[k]);
    }
    LastHasNoEdges(blocks, entry, reachable);
    DroppedLinked(blocks, entry, reachable);
    DroppedListed(blocks, edges);
    DroppedReachable(blocks, entry, reachable);
    if DistinctStarts(full, n) {
      IndexDropped(blocks, index);
    }
    hide Linked, EdgeListAgrees, OnlyReachableEdges, IndexDescribes, AllNops, IsStub;
  }

  lemma HasMember(s: seq<nat>)
    ensures s != [] ==> exists v: nat :: v in s
  {
    if s != [] {
      assert s[0] in s;
    }
  }

  lemma LastHasNoEdges(blocks: seq<BasicBlock>, entry: nat, reachable: set<nat>)
    requires Linked(blocks) && OnlyReachableEdges(blocks, entry, reachable)
    requires |blocks| > 0 && |blocks| - 1 !in reachable
    ensures blocks[|blocks| - 1].outgoing == []
  {
    var k := |blocks| - 1;
    assert BlockOk(blocks, k);
    assert forall v: nat :: v in blocks[k].successors ==> Edge(blocks, k, v);
    HasMember(blocks[k].successors);
    hide Linked, Reaches;
  }

  // ----- Edges after padding is gone -----

  lemma OwnInPrefix(g: seq<BasicBlock>, n: nat, k: nat, vram: bv32)
    requires k <= |g| && n <= |g|
    requires OwnBlockAt(g[..k], if k < n then k else n, vram)
    ensures OwnBlockAt(g, n, vram)
  {
    var j :| 0 <= j < n && j < k && g[..k][j].startVram == vram;
    assert g[j].startVram == vram;
  }

  lemma LeadInPrefix(g: seq<BasicBlock>, k: nat, e: CfgEdge, kind: EdgeType, vram: bv32)
    requires k <= |g| && e.toId < k
    ensures LeadsTo(g[..k], e, kind, vram) <==> LeadsTo(g, e, kind, vram)
    ensures g[..k][e.toId] == g[e.toId]
  {
  }

  lemma SwitchRightInPrefix(g: seq<BasicBlock>, n: nat, k: nat, entries: seq<bv32>, out: seq<CfgEdge>)
    requires k <= |g| && n <= |g| && SwitchRight(g, n, entries, out)
    requires forall i :: 0 <= i < |out| ==> out[i].toId < k
    ensures SwitchRight(g[..k], if k < n then k else n, entries, out)
  {
    var h, m := g[..k], if k < n then k else n;
    hide OwnBlockAt, LeadsTo;
    forall i | 0 <= i < |out| ensures h[out[i].toId] == g[out[i].toId] {
      LeadInPrefix(g, k, out[i], JumpEdge, 0);
    }
    forall v | v in entries && OwnBlockAt(h, m, v) ensures exists i :: 0 <= i < |out| && LeadsTo(h, out[i], JumpEdge, v) {
      OwnInPrefix(g, n, k, v);
      var i :| 0 <= i < |out| && LeadsTo(g, out[i], JumpEdge, v);
      LeadInPrefix(g, k, out[i], JumpEdge, v);
    }
  }

  lemma BranchRightInPrefix(g: seq<BasicBlock>, n: nat, k: nat, x: Instruction, out: seq<CfgEdge>)
    requires k <= |g| && n <= |g| && BranchRight(g, n, x, out)
    requires forall i :: 0 <= i < |out| ==> out[i].toId < k
    ensures BranchRight(g[..k], if k < n then k else n, x, out)
  {
    if OwnBlockAt(g[..k], if k < n then k else n, FallthroughVram(x)) {
      OwnInPrefix(g, n, k, FallthroughVram(x));
    }
    hide OwnBlockAt, FallthroughVram;
  }

  lemma IndirectRightInPrefix(g: seq<BasicBlock>, n: nat, k: nat, target: Option<bv32>, out: seq<CfgEdge>)
    requires k <= |g| && n <= |g| && IndirectRight(g, n, target, out)
    requires forall i :: 0 <= i < |out| ==> out[i].toId < k
    ensures IndirectRight(g[..k], if k < n then k else n, target, out)
  {
    if target.Some? && OwnBlockAt(g[..k], if k < n then k else n, target.value) {
      OwnInPrefix(g, n, k, target.value);
    }
    hide OwnBlockAt;
  }

  /** The edges of a block stay right when the blocks after the first k, none of which it leads to, are
      dropped. */
  lemma EdgesRightInPrefix(g: seq<BasicBlock>, n: nat, k: nat, b: nat)
    requires k <= |g| && n <= |g| && b < k && b < n && EdgesRight(g, n, b)
    requires forall i :: 0 <= i < |g[b].outgoing| ==> g[b].outgoing[i].toId < k
    ensures EdgesRight(g[..k], if k < n then k else n, b)
  {
    var out, t := g[b].outgoing, g[b].Terminator();
    assert g[..k][b] == g[b];
    hide SwitchRight, BranchRight, IndirectRight, IndirectTarget;
    if t.Some? && !t.value.IsReturn() {
      if g[b].jumpTable.Some? {
        SwitchRightInPrefix(g, n, k, g[b].jumpTable.value.entries, out);
      } else if t.value.opcode.J? {
      } else if t.value.IsBranch() {
        BranchRightInPrefix(g, n, k, t.value, out);
      } else if t.value.opcode.Jr? {
        IndirectRightInPrefix(g, n, k, IndirectTarget(g[b], t.value), out);
      } else if b + 1 < n {
        assert out[0].toId == b + 1;
      }
    }
  }

  // ----- Finding the reachable blocks -----

  /** Every successor of u has been met. */
  ghost predicate SuccessorsMet(blocks: seq<BasicBlock>, met: set<nat>, u: nat) {
    forall v: nat :: Edge(blocks, u, v) ==> v in met
  }

  /** What has been met is reachable, and all that is not queued has had its successors met. */
  ghost predicate Exploring(blocks: seq<BasicBlock>, entry: nat, met: set<nat>, queue: seq<nat>) {
    && entry in met
    && met <= Universe(blocks, entry)
    && (forall v: nat :: v in met ==> Reaches(blocks, entry, v))
    && (forall u: nat :: u in queue ==> u in met)
    && forall u: nat :: u in met && u !in queue ==> SuccessorsMet(blocks, met, u)
  }

  lemma StartExploring(blocks: seq<BasicBlock>, entry: nat)
    ensures Exploring(blocks, entry, {entry}, [entry])
  {
    ReachesSelf(blocks, entry);
    hide Reaches;
  }

  lemma MeetSuccessor(blocks: seq<BasicBlock>, entry: nat, met: set<nat>, u: nat, v: nat)
    requires Reaches(blocks, entry, u) && Edge(blocks, u, v) && v !in met
    ensures v in Universe(blocks, entry) && Reaches(blocks, entry, v)
    ensures |Universe(blocks, entry) - (met + {v})| < |Universe(blocks, entry) - met|
  {
    ReachesEdge(blocks, entry, u, v);
    UniverseShrinks(blocks, entry, met, v);
  }

  lemma AllSuccessorsMet(blocks: seq<BasicBlock>, met: set<nat>, u: nat)
    requires u < |blocks| ==> forall i :: 0 <= i < |blocks[u].successors| ==> blocks[u].successors[i] in met
    ensures SuccessorsMet(blocks, met, u)
  {
  }

  /** Nothing changed, or less is left to meet. */
  ghost predicate Progress(
    blocks: seq<BasicBlock>, entry: nat, met: set<nat>, rest: seq<nat>, met': set<nat>, rest': seq<nat>)
  {
    (met' == met && rest' == rest) || |Universe(blocks, entry) - met'| < |Universe(blocks, entry) - met|
  }

  /** All that was queued still is, so is all that is new, and nothing else. */
  ghost predicate Queued(met: set<nat>, rest: seq<nat>, met': set<nat>, rest': seq<nat>) {
    && (forall v: nat :: v in rest || (v in met' && v !in met) ==> v in rest')
    && (forall v: nat :: v in rest' ==> v in met')
  }

  lemma QueueOne(met0: set<nat>, rest0: seq<nat>, met: set<nat>, rest: seq<nat>, v: nat)
    requires Queued(met0, rest0, met, rest)
    ensures Queued(met0, rest0, met + {v}, rest + [v])
  {
  }

  /** While the successors of one block are met, everything new is queued. */
  ghost predicate Meeting(
    blocks: seq<BasicBlock>, entry: nat, met: set<nat>, rest: seq<nat>, met': set<nat>, rest': seq<nat>)
  {
    && met <= met' <= Universe(blocks, entry)
    && (forall v: nat :: v in met' ==> Reaches(blocks, entry, v))
    && Queued(met, rest, met', rest')
    && Progress(blocks, entry, met, rest, met', rest')
  }

  lemma StartMeeting(blocks: seq<BasicBlock>, entry: nat, met: set<nat>, curr: nat, rest: seq<nat>)
    requires Exploring(blocks, entry, met, rest + [curr])
    ensures Meeting(blocks, entry, met, rest, met, rest) && Reaches(blocks, entry, curr)
  {
    hide Reaches, Universe, SuccessorsMet;
    assert forall v :: v in rest + [curr] <==> v in rest || v == curr;
  }

  lemma MeetOne(
    blocks: seq<BasicBlock>, entry: nat, met0: set<nat>, rest0: seq<nat>, met: set<nat>, rest: seq<nat>, u: nat, v: nat)
    requires Meeting(blocks, entry, met0, rest0, met, rest)
    requires Reaches(blocks, entry, u) && u < |blocks| && v in blocks[u].successors && v !in met
    ensures Meeting(blocks, entry, met0, rest0, met + {v}, rest + [v])
  {
    MeetSuccessor(blocks, entry, met, u, v);
    QueueOne(met0, rest0, met, rest, v);
    hide Reaches, Universe, Edge, Queued;
  }

  lemma ExploreOn(
    blocks: seq<BasicBlock>, entry: nat, met: set<nat>, curr: nat, rest: seq<nat>, met': set<nat>, rest': seq<nat>)
    requires Exploring(blocks, entry, met, rest + [curr])
    requires Meeting(blocks, entry, met, rest, met', rest')
    requires SuccessorsMet(blocks, met', curr)
    ensures Exploring(blocks, entry, met', rest')
    ensures Progress(blocks, entry, met, rest, met', rest')
  {
    hide Reaches, Universe, Edge;
    assert forall v :: v in rest + [curr] <==> v in rest || v == curr;
    forall u: nat | u in met' && u !in rest' ensures SuccessorsMet(blocks, met', u) {
      if u != curr {
        assert u !in rest + [curr];
        assert SuccessorsMet(blocks, met, u);
      }
    }
  }

  lemma {:induction false} ExploredAlong(blocks: seq<BasicBlock>, entry: nat, met: set<nat>, p: seq<nat>, i: nat)
    requires Exploring(blocks, entry, met, []) && Walk(blocks, p) && p[0] == entry && i < |p|
    ensures p[i] in met
  {
    hide Reaches, Universe, Edge;
    if i > 0 {
      ExploredAlong(blocks, entry, met, p, i - 1);
      assert SuccessorsMet(blocks, met, p[i - 1]);
      assert Edge(blocks, p[i - 1], p[i - 1 + 1]);
    }
  }

  lemma ExploredAll(blocks: seq<BasicBlock>, entry: nat, met: set<nat>)
    requires Exploring(blocks, entry, met, [])
    ensures IsReachableSet(blocks, entry, met)
  {
    forall v: nat | Reaches(blocks, entry, v) ensures v in met {
      var p :| WalkBetween(blocks, p, entry, v);
      ExploredAlong(blocks, entry, met, p, |p| - 1);
    }
  }

  /** The blocks reachable from the entry, by a worklist. */
  method FindReachable(blocks: seq<BasicBlock>, entry: nat) returns (reachable: set<nat>)
    ensures IsReachableSet(blocks, entry, reachable)
  {
    StartExploring(blocks, entry);
    hide Exploring, Universe;
    var queue := [entry];
    reachable := {entry};
    while queue != []
      invariant Exploring(blocks, entry, reachable, queue)
      decreases |Universe(blocks, entry) - reachable|, |queue|
    {
      var curr, rest := queue[|queue| - 1], queue[..|queue| - 1];
      assert rest + [curr] == queue;
      reachable, queue := MeetSuccessors(blocks, entry, reachable, curr, rest);
    }
    ExploredAll(blocks, entry, reachable);
    hide IsReachableSet;
  }

  /** Queues the successors of a block that have not been met. */
  method MeetSuccessors(blocks: seq<BasicBlock>, ghost entry: nat, met0: set<nat>, curr: nat, rest0: seq<nat>)
    returns (met: set<nat>, rest: seq<nat>)
    requires Exploring(blocks, entry, met0, rest0 + [curr])
    ensures Exploring(blocks, entry, met, rest)
    ensures Progress(blocks, entry, met0, rest0, met, rest)
  {
    StartMeeting(blocks, entry, met0, curr, rest0);
    hide Exploring, Reaches, SuccessorsMet, Meeting, Progress;
    met, rest := met0, rest0;
    if curr < |blocks| {
      met, rest := MeetEach(blocks, entry, met0, rest0, curr);
    }
    AllSuccessorsMet(blocks, met, curr);
    ExploreOn(blocks, entry, met0, curr, rest0, met, rest);
  }

  method MeetEach(blocks: seq<BasicBlock>, ghost entry: nat, met0: set<nat>, rest0: seq<nat>, curr: nat)
    returns (met: set<nat>, rest: seq<nat>)
    requires curr < |blocks| && Reaches(blocks, entry, curr)
    requires Meeting(blocks, entry, met0, rest0, met0, rest0)
    ensures Meeting(blocks, entry, met0, rest0, met, rest)
    ensures forall i :: 0 <= i < |blocks[curr].successors| ==> blocks[curr].successors[i] in met
  {
    hide Reaches, Meeting, Edge;
    met, rest := met0, rest0;
    var succs := blocks[curr].successors;
    for k := 0 to |succs|
      invariant Meeting(blocks, entry, met0, rest0, met, rest)
      invariant forall i :: 0 <= i < k ==> succs[i] in met
    {
      var s := succs[k];
      if s !in met {
        MeetOne(blocks, entry, met0, rest0, met, rest, curr, s);
        met := met + {s};
        rest := rest + [s];
      }
    }
  }
}
