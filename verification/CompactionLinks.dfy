/** How far successors and predecessors still agree in number after compaction, which removes repeated
    predecessors but not repeated successors (core/control_flow_graph.cc, CompactReachableBlocks). */
module CompactionLinks {
  import opened Blocks
  import opened Compaction
  import opened Linking
  import opened Merging
  import opened Mips
  import opened PostOrder
  import opened Wrappers

  lemma DistinctCounts(s: seq<nat>, x: nat)
    requires Distinct(s)
    ensures multiset(s)[x] == if x in s then 1 else 0
    decreases |s|
  {
    if s != [] {
      var n := |s| - 1;
      assert s == s[..n] + [s[n]];
      DistinctCounts(s[..n], x);
      assert x in s[..n] ==> x != s[n];
    }
  }

  /** Translated successors occur as often as the old ones. */
  lemma {:induction false} TranslatedCounts(ids: seq<nat>, kept: seq<nat>, m: map<nat, nat>, v: nat)
    requires Numbering(kept, m) && v < |kept|
    ensures multiset(Translated(ids, m))[v] == multiset(ids)[kept[v]]
  {
    if ids != [] {
      var n := |ids| - 1;
      assert ids == ids[..n] + [ids[n]];
      TranslatedCounts(ids[..n], kept, m, v);
      if ids[n] in m {
        NumberingInverse(kept, m, ids[n]);
      }
    }
  }

  /** After compaction u is as often a predecessor of v as v is a successor of u exactly when v was a successor of
      u at most once. */
  lemma MultiplicityExactly(blocks: seq<BasicBlock>, kept: seq<nat>, m: map<nat, nat>, u: nat, v: nat)
    requires Linked(blocks) && InRange(blocks, kept) && Numbering(kept, m) && u < |kept| && v < |kept|
    ensures MultiplicityAgrees(CompactedGraph(blocks, kept, m), u, v) <==>
              multiset(blocks[kept[u]].successors)[kept[v]] <= 1
  {
    assert MultiplicityAgrees(blocks, kept[u], kept[v]);
    hide Linked, Translated, TranslatedOnce, TranslatedEdges;
    var g := CompactedGraph(blocks, kept, m);
    var preds := blocks[kept[v]].predecessors;
    TranslatedOnceMembers(preds, m, kept);
    DistinctCounts(TranslatedOnce(preds, m), u);
    TranslatedCounts(blocks[kept[u]].successors, kept, m, v);
    assert kept[u] in preds <==> multiset(preds)[kept[u]] > 0;
    hide Numbering, Distinct;
  }

  lemma {:induction false} CountsAreDistinct(s: seq<nat>)
    requires forall x: nat :: multiset(s)[x] <= 1
    ensures Distinct(s)
  {
    if s != [] {
      var n := |s| - 1;
      assert s == s[..n] + [s[n]];
      forall x: nat ensures multiset(s[..n])[x] <= 1 {
        assert multiset(s)[x] <= 1;
      }
      CountsAreDistinct(s[..n]);
      assert multiset(s)[s[n]] <= 1;
      assert s[n] !in s[..n];
    }
  }

  /** The compacted graph is linked, successors and predecessors agreeing in number, exactly when no reachable
      block listed a successor twice. */
  lemma CompactedIsLinkedExactly(blocks: seq<BasicBlock>, entry: nat, kept: seq<nat>, m: map<nat, nat>)
    requires Linked(blocks) && entry < |blocks| && ReachableNonEmpty(blocks, entry)
    requires KeptOrder(blocks, entry, kept) && Numbering(kept, m)
    ensures Linked(CompactedGraph(blocks, kept, m)) <==>
              forall w: nat :: Reaches(blocks, entry, w) ==> w < |blocks| && Distinct(blocks[w].successors)
  {
    var g := CompactedGraph(blocks, kept, m);
    LinkedIsWellFormed(blocks, entry);
    CompactionIsIsomorphic(blocks, entry, kept, m);
    IsomorphicWellFormed(blocks, entry, g, kept);
    hide Linked, WellFormed, Isomorphic, CompactedGraph, MultiplicityAgrees, Numbering, Distinct, Reaches, ReachableNonEmpty, Sorted;
    WellFormedIsLinked(g);
    if Linked(g) {
      forall w: nat | Reaches(blocks, entry, w) ensures w < |blocks| && Distinct(blocks[w].successors) {
        ReachedIsKept(blocks, entry, kept, w);
        var u :| 0 <= u < |kept| && kept[u] == w;
        AllOnce(blocks, entry, kept, m, u);
      }
    }
    if forall w: nat :: Reaches(blocks, entry, w) ==> w < |blocks| && Distinct(blocks[w].successors) {
      forall u: nat, v: nat | u < |kept| && v < |kept| ensures MultiplicityAgrees(g, u, v) {
        assert kept[u] in kept;
        DistinctCounts(blocks[kept[u]].successors, kept[v]);
        MultiplicityExactly(blocks, kept, m, u, v);
      }
    }
  }

  lemma ReachedIsKept(blocks: seq<BasicBlock>, entry: nat, kept: seq<nat>, w: nat)
    requires ReachableNonEmpty(blocks, entry) && KeptOrder(blocks, entry, kept) && Reaches(blocks, entry, w)
    ensures w in kept && w < |blocks|
  {
    hide Reaches, Sorted;
  }

  lemma WellFormedIsLinked(g: seq<BasicBlock>)
    requires WellFormed(g, 0)
    ensures Linked(g) <==> forall u: nat, v: nat :: u < |g| && v < |g| ==> MultiplicityAgrees(g, u, v)
  {
    hide BlockOk, MultiplicityAgrees, Edge;
  }

  lemma AllOnce(blocks: seq<BasicBlock>, entry: nat, kept: seq<nat>, m: map<nat, nat>, u: nat)
    requires Linked(blocks) && entry < |blocks| && ReachableNonEmpty(blocks, entry)
    requires KeptOrder(blocks, entry, kept) && Numbering(kept, m) && u < |kept|
    requires Linked(CompactedGraph(blocks, kept, m))
    ensures Distinct(blocks[kept[u]].successors)
  {
    var b := blocks[kept[u]];
    forall v: nat | v < |kept| ensures MultiplicityAgrees(CompactedGraph(blocks, kept, m), u, v) {
    }
    LinkedIsWellFormed(blocks, entry);
    SuccessorsKept(blocks, entry, kept, m, u);
    hide Linked, WellFormed, CompactedGraph, MultiplicityAgrees, Distinct, Reaches, ReachableNonEmpty, KeptOrder;
    forall x: nat ensures multiset(b.successors)[x] <= 1 {
      if x in b.successors {
        NumberingInverse(kept, m, x);
        MultiplicityExactly(blocks, kept, m, u, m[x]);
      }
    }
    CountsAreDistinct(b.successors);
  }

  /** Two blocks, the first of which branches to the one it also falls through to. */
  function DoublyLinked(x: Instruction): seq<BasicBlock> {
    var edges := [CfgEdge(0, 1, BranchTaken), CfgEdge(0, 1, Fallthrough)];
    [BasicBlock(0, 0, 0, [x], [], [1, 1], edges, None), BasicBlock(1, 4, 4, [x], [0, 0], [], [], None)]
  }

  lemma DoublyLinkedIsLinked(x: Instruction)
    ensures Linked(DoublyLinked(x))
  {
    var g := DoublyLinked(x);
    assert multiset([1, 1])[1] == 2 && multiset([0, 0])[0] == 2;
    forall u, v | 0 <= u < 2 && 0 <= v < 2 ensures MultiplicityAgrees(g, u, v) {
    }
  }

  lemma DoublyLinkedIsReached(x: Instruction)
    ensures ReachableNonEmpty(DoublyLinked(x), 0) && KeptOrder(DoublyLinked(x), 0, [0, 1])
  {
    var g := DoublyLinked(x);
    DoublyLinkedIsLinked(x);
    LinkedIsWellFormed(g, 0);
    ReachesSelf(g, 0);
    assert g[0].successors[0] == 1 && Edge(g, 0, 1);
    ReachesEdge(g, 0, 0, 1);
    forall v: nat | Reaches(g, 0, v) ensures v < 2 {
      ReachedInRange(g, 0, v);
    }
    hide Reaches, Linked, WellFormed;
    assert Sorted(g, 0, [0, 1]);
  }

  lemma ReachedInRange(g: seq<BasicBlock>, entry: nat, v: nat)
    requires WellFormed(g, entry) && Reaches(g, entry, v)
    ensures v < |g|
  {
    var p :| WalkBetween(g, p, entry, v);
    if |p| > 1 {
      assert Edge(g, p[|p| - 2], p[|p| - 2 + 1]);
      EdgesInRange(g, entry, p[|p| - 2], p[|p| - 1]);
    }
  }

  /** Compacting that graph leaves one predecessor entry for two successor entries. */
  lemma CompactionCanUnlink(x: Instruction)
    ensures var g, kept, m := DoublyLinked(x), [0, 1], map[0 := 0, 1 := 1];
      && Linked(g) && ReachableNonEmpty(g, 0) && KeptOrder(g, 0, kept) && Numbering(kept, m)
      && !Linked(CompactedGraph(g, kept, m))
  {
    var g, kept, m := DoublyLinked(x), [0, 1], map[0 := 0, 1 := 1];
    DoublyLinkedIsLinked(x);
    DoublyLinkedIsReached(x);
    ReachesSelf(g, 0);
    assert !Distinct(g[0].successors) by {
      assert g[0].successors[0] == g[0].successors[1];
    }
    hide Linked, Reaches, KeptOrder, ReachableNonEmpty, CompactedGraph, Distinct;
    CompactedIsLinkedExactly(g, 0, kept, m);
  }
}
