/** Dropping unreachable blocks and renumbering the rest (core/control_flow_graph.cc,
    CompactReachableBlocks): the new graph is the reachable part of the old one under another
    numbering. */
module Compaction {
  import opened Mips
  import opened Blocks
  import opened PostOrder
  import opened Merging
  import opened Wrappers

  // ----- The order of the kept blocks -----

  predicate LowerAddress(x: bv32, i: nat, y: bv32, j: nat) {
    if x != y then Address(x) < Address(y) else i < j
  }

  lemma LowerAddressOrder(x: bv32, i: nat, y: bv32, j: nat, z: bv32, k: nat)
    ensures LowerAddress(x, i, y, j) && LowerAddress(y, j, z, k) ==> LowerAddress(x, i, z, k)
    ensures i != j ==> (LowerAddress(x, i, y, j) <==> !LowerAddress(y, j, x, i))
  {
    hide Address;
    if Address(x) == Address(y) {
      AddressInjective(x, y);
    }
  }

  /** The entry block first, then by address, then by old id. */
  predicate Before(blocks: seq<BasicBlock>, entry: nat, l: nat, r: nat)
    requires l < |blocks| && r < |blocks|
  {
    if l == entry then r != entry
    else r != entry && LowerAddress(blocks[l].startVram, l, blocks[r].startVram, r)
  }

  lemma BeforeTransitive(blocks: seq<BasicBlock>, entry: nat, a: nat, b: nat, c: nat)
    requires a < |blocks| && b < |blocks| && c < |blocks|
    requires Before(blocks, entry, a, b) && Before(blocks, entry, b, c)
    ensures Before(blocks, entry, a, c)
  {
    hide LowerAddress;
    LowerAddressOrder(blocks[a].startVram, a, blocks[b].startVram, b, blocks[c].startVram, c);
  }

  lemma BeforeTotal(blocks: seq<BasicBlock>, entry: nat, a: nat, b: nat)
    requires a < |blocks| && b < |blocks| && a != b
    ensures Before(blocks, entry, a, b) <==> !Before(blocks, entry, b, a)
  {
    hide LowerAddress;
    LowerAddressOrder(blocks[a].startVram, a, blocks[b].startVram, b, blocks[b].startVram, b);
  }

  ghost predicate Sorted(blocks: seq<BasicBlock>, entry: nat, s: seq<nat>)
    requires InRange(blocks, s)
  {
    forall i, j :: 0 <= i < j < |s| ==> Before(blocks, entry, s[i], s[j])
  }

  /** Puts x where it belongs in a sorted list. */
  method Insert(blocks: seq<BasicBlock>, entry: nat, s: seq<nat>, x: nat) returns (r: seq<nat>)
    requires InRange(blocks, s) && Sorted(blocks, entry, s) && x < |blocks| && x !in s
    ensures InRange(blocks, r) && Sorted(blocks, entry, r)
    ensures multiset(r) == multiset(s) + multiset{x}
  {
    hide Before;
    var k := |s|;
    while k > 0 && Before(blocks, entry, x, s[k - 1])
      invariant 0 <= k <= |s|
      invariant forall i :: k <= i < |s| ==> Before(blocks, entry, x, s[i])
    {
      k := k - 1;
    }
    r := s[..k] + [x] + s[k..];
    assert s == s[..k] + s[k..];
    forall i | 0 <= i < k ensures Before(blocks, entry, s[i], x) {
      BeforeTotal(blocks, entry, s[k - 1], x);
      if i < k - 1 {
        BeforeTransitive(blocks, entry, s[i], s[k - 1], x);
      }
    }
  }

  /** The kept ids in the order of the new graph. */
  method SortKept(blocks: seq<BasicBlock>, entry: nat, ids: seq<nat>) returns (sorted: seq<nat>)
    requires InRange(blocks, ids) && Distinct(ids)
    ensures InRange(blocks, sorted) && Sorted(blocks, entry, sorted)
    ensures multiset(sorted) == multiset(ids)
  {
    sorted := [];
    for i := 0 to |ids|
      invariant InRange(blocks, sorted) && Sorted(blocks, entry, sorted)
      invariant multiset(sorted) == multiset(ids[..i])
    {
      assert ids[..i + 1] == ids[..i] + [ids[i]];
      assert forall x :: x in sorted <==> x in multiset(sorted);
      assert forall x :: x in ids[..i] <==> x in multiset(ids[..i]);
      sorted := Insert(blocks, entry, sorted, ids[i]);
    }
    assert ids[..|ids|] == ids;
  }

  lemma SortedIsDistinct(blocks: seq<BasicBlock>, entry: nat, s: seq<nat>)
    requires InRange(blocks, s) && Sorted(blocks, entry, s)
    ensures Distinct(s)
  {
    forall i, j | 0 <= i < j < |s| ensures s[i] != s[j] {
      assert Before(blocks, entry, s[i], s[j]);
    }
  }

  /** The entry, when kept, comes first. */
  lemma EntryComesFirst(blocks: seq<BasicBlock>, entry: nat, s: seq<nat>)
    requires InRange(blocks, s) && Sorted(blocks, entry, s) && entry in s
    ensures s[0] == entry
  {
    var i :| 0 <= i < |s| && s[i] == entry;
    hide LowerAddress;
  }

  // ----- Renumbering -----

  /** m sends every kept id to its position. */
  ghost predicate Numbering(kept: seq<nat>, m: map<nat, nat>) {
    && (forall k :: 0 <= k < |kept| ==> kept[k] in m && m[kept[k]] == k)
    && (forall x :: x in m ==> x in kept)
  }

  lemma NumberingInverse(kept: seq<nat>, m: map<nat, nat>, x: nat)
    requires Numbering(kept, m) && x in m
    ensures m[x] < |kept| && kept[m[x]] == x
  {
    var k :| 0 <= k < |kept| && kept[k] == x;
  }

  function Translated(ids: seq<nat>, m: map<nat, nat>): seq<nat> {
    if ids == [] then []
    else
      var x := ids[|ids| - 1];
      Translated(ids[..|ids| - 1], m) + (if x in m then [m[x]] else [])
  }

  function TranslatedOnce(ids: seq<nat>, m: map<nat, nat>): seq<nat> {
    if ids == [] then []
    else
      var x := ids[|ids| - 1];
      var front := TranslatedOnce(ids[..|ids| - 1], m);
      front + (if x in m && m[x] !in front then [m[x]] else [])
  }

  function TranslatedEdges(edges: seq<CfgEdge>, m: map<nat, nat>, from: nat): seq<CfgEdge> {
    if edges == [] then []
    else
      var e := edges[|edges| - 1];
      TranslatedEdges(edges[..|edges| - 1], m, from) +
        (if e.toId in m then [CfgEdge(from, m[e.toId], e.kind)] else [])
  }

  function CompactedBlock(b: BasicBlock, m: map<nat, nat>, k: nat): BasicBlock {
    b.(id := k,
       predecessors := TranslatedOnce(b.predecessors, m),
       successors := Translated(b.successors, m),
       outgoing := TranslatedEdges(b.outgoing, m, k))
  }

  function CompactedGraph(blocks: seq<BasicBlock>, kept: seq<nat>, m: map<nat, nat>): (r: seq<BasicBlock>)
    requires InRange(blocks, kept)
    ensures |r| == |kept|
  {
    seq(|kept|, k requires 0 <= k < |kept| => CompactedBlock(blocks[kept[k]], m, k))
  }

  lemma {:induction false} TranslatedAll(ids: seq<nat>, m: map<nat, nat>)
    requires forall i :: 0 <= i < |ids| ==> ids[i] in m
    ensures |Translated(ids, m)| == |ids|
    ensures forall i :: 0 <= i < |ids| ==> Translated(ids, m)[i] == m[ids[i]]
  {
    if ids != [] {
      TranslatedAll(ids[..|ids| - 1], m);
    }
  }

  lemma {:induction false} TranslatedEdgesAll(edges: seq<CfgEdge>, m: map<nat, nat>, from: nat)
    requires forall i :: 0 <= i < |edges| ==> edges[i].toId in m
    ensures |TranslatedEdges(edges, m, from)| == |edges|
    ensures forall i :: 0 <= i < |edges| ==>
      TranslatedEdges(edges, m, from)[i] == CfgEdge(from, m[edges[i].toId], edges[i].kind)
  {
    if edges != [] {
      TranslatedEdgesAll(edges[..|edges| - 1], m, from);
    }
  }

  lemma {:induction false} TranslatedOnceMembers(ids: seq<nat>, m: map<nat, nat>, kept: seq<nat>)
    requires Numbering(kept, m)
    ensures Distinct(TranslatedOnce(ids, m))
    ensures forall u: nat :: u in TranslatedOnce(ids, m) <==> u < |kept| && kept[u] in ids
  {
    if ids != [] {
      var n := |ids| - 1;
      TranslatedOnceMembers(ids[..n], m, kept);
      assert ids == ids[..n] + [ids[n]];
      if ids[n] in m {
        NumberingInverse(kept, m, ids[n]);
      }
    }
  }

  // ----- The new graph is the reachable part of the old one -----

  /** What the renumbering keeps of block old when it becomes block k. */
  ghost predicate SameBlock(old': BasicBlock, new': BasicBlock, kept: seq<nat>, k: nat) {
    && new'.id == k
    && new'.instructions == old'.instructions
    && new'.startVram == old'.startVram && new'.endVram == old'.endVram
    && new'.jumpTable == old'.jumpTable
    && |new'.successors| == |old'.successors|
    && (forall i :: 0 <= i < |new'.successors| ==>
         new'.successors[i] < |kept| && kept[new'.successors[i]] == old'.successors[i])
    && |new'.outgoing| == |old'.outgoing|
    && (forall i :: 0 <= i < |new'.outgoing| ==>
         && new'.outgoing[i].fromId == k
         && new'.outgoing[i].toId < |kept| && kept[new'.outgoing[i].toId] == old'.outgoing[i].toId
         && new'.outgoing[i].kind == old'.outgoing[i].kind)
    && Distinct(new'.predecessors)
    && forall u: nat :: u in new'.predecessors <==> u < |kept| && kept[u] in old'.predecessors
  }

  /** kept is a bijection between the blocks of h and the reachable blocks of g, with the entry first. */
  ghost predicate Isomorphic(g: seq<BasicBlock>, entry: nat, h: seq<BasicBlock>, kept: seq<nat>) {
    && InRange(g, kept) && Distinct(kept)
    && (forall v: nat :: v in kept <==> Reaches(g, entry, v))
    && |h| == |kept| && |kept| > 0 && kept[0] == entry
    && forall k :: 0 <= k < |h| ==> SameBlock(g[kept[k]], h[k], kept, k)
  }

  lemma CompactedBlockSame(b: BasicBlock, kept: seq<nat>, m: map<nat, nat>, k: nat)
    requires Numbering(kept, m)
    requires forall i :: 0 <= i < |b.successors| ==> b.successors[i] in m
    requires forall i :: 0 <= i < |b.outgoing| ==> b.outgoing[i].toId in m
    ensures SameBlock(b, CompactedBlock(b, m, k), kept, k)
  {
    TranslatedAll(b.successors, m);
    TranslatedEdgesAll(b.outgoing, m, k);
    TranslatedOnceMembers(b.predecessors, m, kept);
    forall x | x in m ensures m[x] < |kept| && kept[m[x]] == x {
      NumberingInverse(kept, m, x);
    }
    hide Numbering, Distinct, Translated, TranslatedOnce, TranslatedEdges;
  }

  /** kept lists the reachable non-empty blocks in the order of the new graph. */
  ghost predicate KeptOrder(blocks: seq<BasicBlock>, entry: nat, kept: seq<nat>) {
    && InRange(blocks, kept) && Sorted(blocks, entry, kept)
    && forall v: nat :: v in kept <==> Reaches(blocks, entry, v) && v < |blocks| && blocks[v].instructions != []
  }

  lemma SuccessorsKept(blocks: seq<BasicBlock>, entry: nat, kept: seq<nat>, m: map<nat, nat>, k: nat)
    requires WellFormed(blocks, entry) && ReachableNonEmpty(blocks, entry)
    requires KeptOrder(blocks, entry, kept) && Numbering(kept, m) && k < |kept|
    ensures var b := blocks[kept[k]];
      && (forall i :: 0 <= i < |b.successors| ==> b.successors[i] in m)
      && (forall i :: 0 <= i < |b.outgoing| ==> b.outgoing[i].toId in m)
  {
    hide Reaches, Sorted;
    var b := blocks[kept[k]];
    assert BlockOk(blocks, kept[k]) && kept[k] in kept;
    forall i | 0 <= i < |b.successors| ensures b.successors[i] in m {
      var s := b.successors[i];
      assert Edge(blocks, kept[k], s);
      ReachesEdge(blocks, entry, kept[k], s);
      assert s in kept;
    }
  }

  /** With every reachable block non-empty, compaction yields the reachable subgraph renumbered. */
  lemma CompactionIsIsomorphic(blocks: seq<BasicBlock>, entry: nat, kept: seq<nat>, m: map<nat, nat>)
    requires WellFormed(blocks, entry) && ReachableNonEmpty(blocks, entry)
    requires KeptOrder(blocks, entry, kept) && Numbering(kept, m)
    ensures Isomorphic(blocks, entry, CompactedGraph(blocks, kept, m), kept)
  {
    SortedIsDistinct(blocks, entry, kept);
    ReachesSelf(blocks, entry);
    EntryComesFirst(blocks, entry, kept);
    hide WellFormed, Reaches, Sorted, Numbering, Distinct, SameBlock;
    forall k | 0 <= k < |kept| ensures SameBlock(blocks[kept[k]], CompactedGraph(blocks, kept, m)[k], kept, k) {
      SuccessorsKept(blocks, entry, kept, m, k);
      CompactedBlockSame(blocks[kept[k]], kept, m, k);
      hide CompactedBlock;
    }
    hide CompactedGraph;
  }

  // ----- What a renumbering keeps -----

  lemma SameEdges(g: seq<BasicBlock>, entry: nat, h: seq<BasicBlock>, kept: seq<nat>, u: nat, v: nat)
    requires Isomorphic(g, entry, h, kept) && u < |h| && v < |h|
    ensures Edge(h, u, v) <==> Edge(g, kept[u], kept[v])
  {
    hide Reaches;
    assert SameBlock(g[kept[u]], h[u], kept, u);
    if Edge(g, kept[u], kept[v]) {
      var i :| 0 <= i < |g[kept[u]].successors| && g[kept[u]].successors[i] == kept[v];
      assert kept[h[u].successors[i]] == kept[v];
    }
  }

  lemma IsomorphicBlockOk(g: seq<BasicBlock>, entry: nat, h: seq<BasicBlock>, kept: seq<nat>, k: nat)
    requires WellFormed(g, entry) && Isomorphic(g, entry, h, kept) && k < |h|
    ensures BlockOk(h, k)
  {
    hide Reaches;
    assert SameBlock(g[kept[k]], h[k], kept, k) && BlockOk(g, kept[k]);
    hide WellFormed, Isomorphic;
    forall i | 0 <= i < |h[k].outgoing| ensures h[k].outgoing[i].toId == h[k].successors[i] {
      DistinctAt(kept, h[k].outgoing[i].toId, h[k].successors[i]);
    }
    forall i | 0 <= i < |h[k].predecessors| ensures h[k].predecessors[i] < |h| {
      assert h[k].predecessors[i] in h[k].predecessors;
    }
  }

  lemma DistinctAt(s: seq<nat>, i: nat, j: nat)
    requires Distinct(s) && i < |s| && j < |s| && s[i] == s[j]
    ensures i == j
  {
  }

  /** The renumbered graph is well-formed again. */
  lemma IsomorphicWellFormed(g: seq<BasicBlock>, entry: nat, h: seq<BasicBlock>, kept: seq<nat>)
    requires WellFormed(g, entry) && Isomorphic(g, entry, h, kept)
    ensures WellFormed(h, 0)
  {
    hide Reaches, BlockOk, SameBlock;
    forall k | 0 <= k < |h| ensures BlockOk(h, k) {
      IsomorphicBlockOk(g, entry, h, kept, k);
    }
    forall u: nat, v: nat | u < |h| && v < |h| ensures u in h[v].predecessors <==> Edge(h, u, v) {
      SamePredecessors(g, entry, h, kept, u, v);
      SameEdges(g, entry, h, kept, u, v);
      assert kept[u] in g[kept[v]].predecessors <==> Edge(g, kept[u], kept[v]);
    }
    hide Edge, Isomorphic;
  }

  lemma SamePredecessors(g: seq<BasicBlock>, entry: nat, h: seq<BasicBlock>, kept: seq<nat>, u: nat, v: nat)
    requires Isomorphic(g, entry, h, kept) && u < |h| && v < |h|
    ensures u in h[v].predecessors <==> kept[u] in g[kept[v]].predecessors
  {
    hide Reaches;
    assert SameBlock(g[kept[v]], h[v], kept, v);
  }

  /** The walk of the old graph that a walk of the new one stands for. */
  function Through(kept: seq<nat>, q: seq<nat>): (p: seq<nat>)
    requires forall i :: 0 <= i < |q| ==> q[i] < |kept|
    ensures |p| == |q| && forall i :: 0 <= i < |q| ==> p[i] == kept[q[i]]
  {
    seq(|q|, i requires 0 <= i < |q| => kept[q[i]])
  }

  lemma {:induction false} ThroughInstructions(
    g: seq<BasicBlock>, entry: nat, h: seq<BasicBlock>, kept: seq<nat>, q: seq<nat>)
    requires Isomorphic(g, entry, h, kept) && InRange(h, q)
    ensures InRange(g, Through(kept, q))
    ensures InstructionsAlong(g, Through(kept, q)) == InstructionsAlong(h, q)
  {
    hide Reaches;
    if q != [] {
      var n := |q| - 1;
      ThroughInstructions(g, entry, h, kept, q[..n]);
      assert Through(kept, q)[..n] == Through(kept, q[..n]);
      assert SameBlock(g[kept[q[n]]], h[q[n]], kept, q[n]);
    }
    hide SameBlock;
  }

  lemma ThroughWalk(g: seq<BasicBlock>, entry: nat, h: seq<BasicBlock>, kept: seq<nat>, q: seq<nat>)
    requires Isomorphic(g, entry, h, kept) && EntryWalk(h, 0, q)
    ensures EntryWalk(g, entry, Through(kept, q))
  {
    hide Reaches, Edge;
    var p := Through(kept, q);
    forall i | 0 <= i < |p| - 1 ensures Edge(g, p[i], p[i + 1]) {
      assert Edge(h, q[i], q[i + 1]);
      SameEdges(g, entry, h, kept, q[i], q[i + 1]);
    }
  }

  lemma SuccessorHasNumber(g: seq<BasicBlock>, entry: nat, h: seq<BasicBlock>, kept: seq<nat>, u: nat, v: nat)
    returns (x: nat)
    requires Isomorphic(g, entry, h, kept) && u < |h| && Edge(g, kept[u], v)
    ensures x < |h| && kept[x] == v && Edge(h, u, x)
  {
    hide Reaches;
    assert SameBlock(g[kept[u]], h[u], kept, u);
    var i :| 0 <= i < |g[kept[u]].successors| && g[kept[u]].successors[i] == v;
    x := h[u].successors[i];
  }

  /** Every walk of the old graph from the entry is a walk of the new one. */
  lemma {:induction false} BackWalk(
    g: seq<BasicBlock>, entry: nat, h: seq<BasicBlock>, kept: seq<nat>, p: seq<nat>) returns (q: seq<nat>)
    requires Isomorphic(g, entry, h, kept) && EntryWalk(g, entry, p)
    ensures EntryWalk(h, 0, q) && Through(kept, q) == p
  {
    var n := |p| - 1;
    if n == 0 {
      q := [0];
      WalkStart(h, 0);
      assert Through(kept, q) == p;
    } else {
      WalkFront(g, entry, p);
      var front := BackWalk(g, entry, h, kept, p[..n]);
      var x := SuccessorHasNumber(g, entry, h, kept, front[n - 1], p[n]);
      WalkExtend(h, 0, front, x);
      q := front + [x];
      BackStep(kept, front, x, p);
    }
    hide Reaches, Edge, SameBlock, Distinct;
  }

  lemma BackStep(kept: seq<nat>, front: seq<nat>, x: nat, p: seq<nat>)
    requires p != [] && (forall i :: 0 <= i < |front| ==> front[i] < |kept|) && x < |kept|
    requires Through(kept, front) == p[..|p| - 1] && kept[x] == p[|p| - 1]
    ensures Through(kept, front + [x]) == p
  {
    assert p == p[..|p| - 1] + [p[|p| - 1]];
  }

  lemma TraceForward(g: seq<BasicBlock>, entry: nat, h: seq<BasicBlock>, kept: seq<nat>, t: seq<Instruction>)
    requires Isomorphic(g, entry, h, kept) && IsTrace(g, entry, t)
    ensures IsTrace(h, 0, t)
  {
    var p :| EntryWalk(g, entry, p) && t <= InstructionsAlong(g, p);
    var q := BackWalk(g, entry, h, kept, p);
    ThroughInstructions(g, entry, h, kept, q);
    hide Isomorphic, InstructionsAlong;
    assert EntryWalk(h, 0, q);
  }

  lemma TraceBackward(g: seq<BasicBlock>, entry: nat, h: seq<BasicBlock>, kept: seq<nat>, t: seq<Instruction>)
    requires Isomorphic(g, entry, h, kept) && IsTrace(h, 0, t)
    ensures IsTrace(g, entry, t)
  {
    var q :| EntryWalk(h, 0, q) && t <= InstructionsAlong(h, q);
    ThroughWalk(g, entry, h, kept, q);
    ThroughInstructions(g, entry, h, kept, q);
    hide InstructionsAlong;
    var p := Through(kept, q);
    assert EntryWalk(g, entry, p);
  }

  /** Renumbering changes no trace. */
  lemma RenumberingKeepsTraces(g: seq<BasicBlock>, entry: nat, h: seq<BasicBlock>, kept: seq<nat>)
    requires Isomorphic(g, entry, h, kept)
    ensures SameTraces(g, entry, h, 0)
  {
    hide Isomorphic, IsTrace;
    forall t ensures IsTrace(g, entry, t) <==> IsTrace(h, 0, t) {
      if IsTrace(g, entry, t) {
        TraceForward(g, entry, h, kept, t);
      }
      if IsTrace(h, 0, t) {
        TraceBackward(g, entry, h, kept, t);
      }
    }
  }

  lemma ReachedAgain(g: seq<BasicBlock>, entry: nat, h: seq<BasicBlock>, kept: seq<nat>, k: nat, p: seq<nat>)
    requires Isomorphic(g, entry, h, kept) && k < |h| && EntryWalk(g, entry, p) && p[|p| - 1] == kept[k]
    ensures Reaches(h, 0, k)
  {
    var q := BackWalk(g, entry, h, kept, p);
    var last := q[|q| - 1];
    assert kept[last] == kept[k];
    hide SameBlock;
    DistinctAt(kept, last, k);
    assert WalkBetween(h, q, 0, k);
  }

  lemma KeptIsReachable(g: seq<BasicBlock>, entry: nat, h: seq<BasicBlock>, kept: seq<nat>, k: nat)
    requires Isomorphic(g, entry, h, kept) && k < |h|
    ensures Reaches(g, entry, kept[k]) && h[k].instructions == g[kept[k]].instructions
  {
    hide Reaches;
    assert SameBlock(g[kept[k]], h[k], kept, k);
    assert kept[k] in kept;
  }

  /** Nothing unreachable and nothing empty is left. */
  lemma OnlyReachableLeft(g: seq<BasicBlock>, entry: nat, h: seq<BasicBlock>, kept: seq<nat>, k: nat)
    requires WellFormed(g, entry) && ReachableNonEmpty(g, entry)
    requires Isomorphic(g, entry, h, kept) && k < |h|
    ensures Reaches(h, 0, k) && h[k].instructions != []
  {
    KeptIsReachable(g, entry, h, kept, k);
    hide Reaches, WellFormed, Walk, SameBlock, Distinct;
    ReachedByEntryWalk(g, entry, kept[k]);
    var p :| EntryWalk(g, entry, p) && p[|p| - 1] == kept[k];
    ReachedAgain(g, entry, h, kept, k, p);
  }
}
