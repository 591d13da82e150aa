/** The reachability graph the register analyses build over a control-flow graph
    (core/register_tracker.cc): block ids resolved to positions, blocks reachable from the first,
    and predecessor lists. */
module Reachability {
  import opened Blocks
  import opened Wrappers

  /** Position of the last block carrying an id. */
  function IndexOf(blocks: seq<BasicBlock>, id: nat): (r: Option<nat>)
    ensures r.Some? ==> r.value < |blocks|
  {
    if blocks == [] then None
    else if blocks[|blocks| - 1].id == id then Some(|blocks| - 1)
    else IndexOf(blocks[..|blocks| - 1], id)
  }

  /** Control can pass from the block at u to the block at v. */
  predicate HasEdge(blocks: seq<BasicBlock>, u: nat, v: nat) {
    u < |blocks| && v < |blocks| &&
    exists k :: 0 <= k < |blocks[u].successors| && IndexOf(blocks, blocks[u].successors[k]) == Some(v)
  }

  ghost predicate IsPath(blocks: seq<BasicBlock>, p: seq<nat>) {
    && |p| > 0 && (forall i :: 0 <= i < |p| ==> p[i] < |blocks|)
    && forall i :: 0 <= i < |p| - 1 ==> HasEdge(blocks, p[i], p[i + 1])
  }

  ghost predicate PathTo(blocks: seq<BasicBlock>, p: seq<nat>, v: nat) {
    IsPath(blocks, p) && p[0] == 0 && p[|p| - 1] == v
  }

  ghost predicate Reachable(blocks: seq<BasicBlock>, v: nat) {
    exists p :: PathTo(blocks, p, v)
  }

  lemma ReachableStep(blocks: seq<BasicBlock>, u: nat, v: nat)
    requires Reachable(blocks, u) && HasEdge(blocks, u, v)
    ensures Reachable(blocks, v)
  {
    var p :| PathTo(blocks, p, u);
    var q := p + [v];
    forall i | 0 <= i < |q| - 1 ensures HasEdge(blocks, q[i], q[i + 1]) {
      if i < |p| - 1 {
        assert HasEdge(blocks, p[i], p[i + 1]);
      }
    }
    assert PathTo(blocks, q, v);
    hide HasEdge;
  }

  datatype ReachabilityGraph = ReachabilityGraph(
    idToIndex: map<nat, nat>, reachable: seq<bool>, predecessors: seq<seq<nat>>, hasReachableReturn: bool)

  ghost predicate ResolvesIds(idToIndex: map<nat, nat>, blocks: seq<BasicBlock>) {
    forall id: nat {:trigger IndexOf(blocks, id)} ::
      (id in idToIndex <==> IndexOf(blocks, id).Some?)
      && (id in idToIndex ==> IndexOf(blocks, id) == Some(idToIndex[id]))
  }

  method IndexIds(blocks: seq<BasicBlock>) returns (idToIndex: map<nat, nat>)
    ensures ResolvesIds(idToIndex, blocks)
  {
    idToIndex := map[];
    for i := 0 to |blocks|
      invariant ResolvesIds(idToIndex, blocks[..i])
    {
      assert blocks[..i + 1][..i] == blocks[..i];
      idToIndex := idToIndex[blocks[i].id := i];
    }
    assert blocks[..|blocks|] == blocks;
  }

  // ----- The worklist -----

  function Unmarked(marks: seq<bool>): nat {
    if marks == [] then 0 else Unmarked(marks[..|marks| - 1]) + (if marks[|marks| - 1] then 0 else 1)
  }

  lemma {:induction false} MarkingCounts(marks: seq<bool>, i: nat)
    requires i < |marks| && !marks[i]
    ensures Unmarked(marks[i := true]) + 1 == Unmarked(marks)
  {
    var n := |marks| - 1;
    if i < n {
      MarkingCounts(marks[..n], i);
      assert marks[i := true][..n] == marks[..n][i := true];
    } else {
      assert marks[i := true][..n] == marks[..n];
    }
  }

  /** Every marked block is reachable; a marked block whose successors are not all marked is on the
      worklist. */
  ghost predicate WorklistInv(blocks: seq<BasicBlock>, marks: seq<bool>, worklist: seq<nat>) {
    && |marks| == |blocks| > 0
    && marks[0]
    && (forall u: nat :: u < |blocks| && marks[u] ==> Reachable(blocks, u))
    && (forall i :: 0 <= i < |worklist| ==> worklist[i] < |blocks| && marks[worklist[i]])
    && forall u: nat, v: nat {:trigger HasEdge(blocks, u, v)} ::
         HasEdge(blocks, u, v) && marks[u] && !marks[v] ==> u in worklist
  }

  method MarkReachable(blocks: seq<BasicBlock>, idToIndex: map<nat, nat>) returns (marks: seq<bool>)
    requires |blocks| > 0 && ResolvesIds(idToIndex, blocks)
    ensures |marks| == |blocks|
    ensures forall v: nat :: v < |blocks| ==> (marks[v] <==> Reachable(blocks, v))
  {
    hide IndexOf;
    marks := seq(|blocks|, i => false);
    var worklist := [0];
    marks := marks[0 := true];
    assert PathTo(blocks, [0], 0);
    while worklist != []
      invariant WorklistInv(blocks, marks, worklist)
      decreases Unmarked(marks), |worklist|
    {
      var curr := worklist[|worklist| - 1];
      worklist := worklist[..|worklist| - 1];
      marks, worklist := VisitSuccessors(blocks, idToIndex, curr, marks, worklist);
    }
    forall v: nat | v < |blocks| && Reachable(blocks, v) ensures marks[v] {
      var p :| PathTo(blocks, p, v);
      MarkedAlong(blocks, marks, p, |p| - 1);
    }
  }

  lemma {:induction false} MarkedAlong(blocks: seq<BasicBlock>, marks: seq<bool>, p: seq<nat>, i: nat)
    requires WorklistInv(blocks, marks, []) && IsPath(blocks, p) && p[0] == 0 && i < |p|
    ensures marks[p[i]]
  {
    hide HasEdge;
    if i > 0 {
      MarkedAlong(blocks, marks, p, i - 1);
      assert HasEdge(blocks, p[i - 1], p[i]);
    }
  }

  /** The first k successors of the block at u are marked, where they resolve at all. */
  ghost predicate SuccessorsMarked(blocks: seq<BasicBlock>, marks: seq<bool>, u: nat, k: nat)
    requires |marks| == |blocks| && u < |blocks| && k <= |blocks[u].successors|
  {
    forall j :: 0 <= j < k ==>
      var v := IndexOf(blocks, blocks[u].successors[j]); v.Some? ==> marks[v.value]
  }

  method VisitSuccessors(
    blocks: seq<BasicBlock>, idToIndex: map<nat, nat>, curr: nat, marks0: seq<bool>, worklist0: seq<nat>)
    returns (marks: seq<bool>, worklist: seq<nat>)
    requires ResolvesIds(idToIndex, blocks) && curr < |blocks|
    requires WorklistInv(blocks, marks0, worklist0 + [curr])
    ensures WorklistInv(blocks, marks, worklist)
    ensures Unmarked(marks) < Unmarked(marks0) || (marks == marks0 && worklist == worklist0)
  {
    hide IndexOf, Reachable, Unmarked;
    marks, worklist := marks0, worklist0;
    assert worklist + [curr] == worklist0 + [curr];
    assert marks[curr] by {
      assert (worklist0 + [curr])[|worklist0|] == curr;
    }
    var succs := blocks[curr].successors;
    for k := 0 to |succs|
      invariant WorklistInv(blocks, marks, worklist + [curr]) && marks[curr]
      invariant SuccessorsMarked(blocks, marks, curr, k)
      invariant Unmarked(marks) < Unmarked(marks0) || (marks == marks0 && worklist == worklist0)
    {
      var id := succs[k];
      assert IndexOf(blocks, id).Some? <==> id in idToIndex;
      if id in idToIndex && !marks[idToIndex[id]] {
        var v := idToIndex[id];
        assert HasEdge(blocks, curr, v);
        ReachableStep(blocks, curr, v);
        MarkingCounts(marks, v);
        PushKeepsInv(blocks, marks, worklist, curr, v);
        marks := marks[v := true];
        worklist := worklist + [v];
      }
    }
    PopKeepsInv(blocks, marks, worklist, curr);
  }

  lemma PushKeepsInv(blocks: seq<BasicBlock>, marks: seq<bool>, worklist: seq<nat>, curr: nat, v: nat)
    requires WorklistInv(blocks, marks, worklist + [curr]) && v < |blocks| && Reachable(blocks, v)
    ensures WorklistInv(blocks, marks[v := true], worklist + [v] + [curr])
  {
    hide Reachable;
    var longer := worklist + [v] + [curr];
    forall u | u in worklist + [curr] ensures u in longer {
    }
    assert longer[|worklist|] == v && longer[|worklist| + 1] == curr;
    forall i | 0 <= i < |longer| ensures longer[i] < |blocks| && marks[v := true][longer[i]] {
      assert i < |worklist| ==> longer[i] == (worklist + [curr])[i];
      assert (worklist + [curr])[|worklist|] == curr;
    }
    forall a: nat, b: nat | HasEdge(blocks, a, b) && marks[v := true][a] && !marks[v := true][b]
      ensures a in longer
    {
      if a != v {
        assert a in worklist + [curr];
      }
    }
  }

  lemma PopKeepsInv(blocks: seq<BasicBlock>, marks: seq<bool>, worklist: seq<nat>, curr: nat)
    requires curr < |blocks|
    requires WorklistInv(blocks, marks, worklist + [curr])
    requires SuccessorsMarked(blocks, marks, curr, |blocks[curr].successors|)
    ensures WorklistInv(blocks, marks, worklist)
  {
    hide IndexOf, Reachable;
    forall i | 0 <= i < |worklist| ensures worklist[i] < |blocks| && marks[worklist[i]] {
      assert (worklist + [curr])[i] == worklist[i];
    }
    forall u: nat, v: nat | HasEdge(blocks, u, v) && marks[u] && !marks[v] ensures u in worklist {
      assert u in worklist + [curr];
    }
  }

  // ----- Predecessors -----

  /** The lists name exactly the (allowed) sources of incoming edges. */
  ghost predicate PredecessorsExact(blocks: seq<BasicBlock>, preds: seq<seq<nat>>, allowed: seq<bool>)
    requires |allowed| == |blocks|
  {
    && |preds| == |blocks|
    && forall u: nat, v: nat {:trigger HasEdge(blocks, u, v)} {:trigger u in preds[v]} :: v < |blocks| ==>
         (u in preds[v] <==> HasEdge(blocks, u, v) && allowed[u])
  }

  ghost predicate PredecessorsUpTo(
    blocks: seq<BasicBlock>, preds: seq<seq<nat>>, allowed: seq<bool>, n: nat, k: nat)
    requires |allowed| == |blocks|
  {
    && |preds| == |blocks|
    && (forall v: nat, u: nat {:trigger u in preds[v]} :: v < |blocks| && u in preds[v] ==>
          u < |blocks| && u <= n && allowed[u] && HasEdge(blocks, u, v))
    && forall u: nat, j: nat {:trigger blocks[u].successors[j]} ::
         u < |blocks| && j < |blocks[u].successors| && allowed[u] && (u < n || (u == n && j < k)) ==>
         var v := IndexOf(blocks, blocks[u].successors[j]); v.Some? ==> u in preds[v.value]
  }

  method CollectPredecessors(blocks: seq<BasicBlock>, idToIndex: map<nat, nat>, allowed: seq<bool>)
    returns (preds: seq<seq<nat>>)
    requires ResolvesIds(idToIndex, blocks) && |allowed| == |blocks|
    ensures PredecessorsExact(blocks, preds, allowed)
  {
    hide IndexOf;
    preds := seq(|blocks|, i => []);
    for u := 0 to |blocks|
      invariant PredecessorsUpTo(blocks, preds, allowed, u, 0)
    {
      if allowed[u] {
        var succs := blocks[u].successors;
        for k := 0 to |succs|
          invariant PredecessorsUpTo(blocks, preds, allowed, u, k)
        {
          var id := succs[k];
          assert IndexOf(blocks, id).Some? <==> id in idToIndex;
          if id in idToIndex {
            var v := idToIndex[id];
            assert HasEdge(blocks, u, v);
            preds := AddPredecessor(blocks, preds, allowed, u, k, v);
          }
        }
      }
    }
    PredecessorsComplete(blocks, preds, allowed);
  }

  method AddPredecessor(
    ghost blocks: seq<BasicBlock>, preds0: seq<seq<nat>>, ghost allowed: seq<bool>, u: nat, ghost k: nat, v: nat)
    returns (preds: seq<seq<nat>>)
    requires |allowed| == |blocks| && PredecessorsUpTo(blocks, preds0, allowed, u, k)
    requires u < |blocks| && allowed[u] && k < |blocks[u].successors| && HasEdge(blocks, u, v)
    requires IndexOf(blocks, blocks[u].successors[k]) == Some(v)
    ensures PredecessorsUpTo(blocks, preds, allowed, u, k + 1)
  {
    hide IndexOf, HasEdge;
    preds := preds0[v := preds0[v] + [u]];
    forall w: nat, x: nat | w < |blocks| && x in preds0[w] ensures x in preds[w] {
    }
  }

  lemma PredecessorsComplete(blocks: seq<BasicBlock>, preds: seq<seq<nat>>, allowed: seq<bool>)
    requires |allowed| == |blocks| && PredecessorsUpTo(blocks, preds, allowed, |blocks|, 0)
    ensures PredecessorsExact(blocks, preds, allowed)
  {
    hide IndexOf;
  }

  method AnyReachableReturn(blocks: seq<BasicBlock>, reachable: seq<bool>) returns (found: bool)
    requires |reachable| == |blocks|
    ensures found <==> exists i :: 0 <= i < |blocks| && reachable[i] && blocks[i].HasReturn()
  {
    found := false;
    for i := 0 to |blocks|
      invariant !found
      invariant forall j :: 0 <= j < i ==> !(reachable[j] && blocks[j].HasReturn())
    {
      if reachable[i] && blocks[i].HasReturn() {
        return true;
      }
    }
  }

  /** What the analyses need to know about a graph built from blocks. */
  ghost predicate Describes(g: ReachabilityGraph, blocks: seq<BasicBlock>, reachableOnly: bool) {
    && ResolvesIds(g.idToIndex, blocks)
    && |g.reachable| == |blocks|
    && (forall v: nat :: v < |blocks| ==> (g.reachable[v] <==> Reachable(blocks, v)))
    && PredecessorsExact(blocks, g.predecessors,
                         if reachableOnly then g.reachable else seq(|blocks|, i => true))
    && (g.hasReachableReturn <==> exists i :: 0 <= i < |blocks| && g.reachable[i] && blocks[i].HasReturn())
  }

  method BuildCfgReachabilityGraph(blocks: seq<BasicBlock>, reachableOnly: bool)
    returns (g: ReachabilityGraph)
    ensures Describes(g, blocks, reachableOnly)
  {
    hide IndexOf, Reachable, HasEdge;
    if |blocks| == 0 {
      g := ReachabilityGraph(map[], [], [], false);
      EmptyGraph(blocks, reachableOnly);
      return;
    }
    var idToIndex := IndexIds(blocks);
    var reachable := MarkReachable(blocks, idToIndex);
    var hasReturn := AnyReachableReturn(blocks, reachable);
    var allowed := if reachableOnly then reachable else seq(|blocks|, i => true);
    var preds := CollectPredecessors(blocks, idToIndex, allowed);
    g := ReachabilityGraph(idToIndex, reachable, preds, hasReturn);
  }

  lemma EmptyGraph(blocks: seq<BasicBlock>, reachableOnly: bool)
    requires blocks == []
    ensures Describes(ReachabilityGraph(map[], [], [], false), blocks, reachableOnly)
  {
  }
}
