/** Depth-first orders of core/control_flow_graph.cc over blocks whose ids are their positions. */
module PostOrder {
  import opened Blocks

  ghost predicate Edge(blocks: seq<BasicBlock>, u: nat, v: nat) {
    u < |blocks| && v in blocks[u].successors
  }

  ghost predicate Walk(blocks: seq<BasicBlock>, p: seq<nat>) {
    |p| > 0 && forall i :: 0 <= i < |p| - 1 ==> Edge(blocks, p[i], p[i + 1])
  }

  ghost predicate WalkBetween(blocks: seq<BasicBlock>, p: seq<nat>, u: nat, v: nat) {
    Walk(blocks, p) && p[0] == u && p[|p| - 1] == v
  }

  ghost predicate Reaches(blocks: seq<BasicBlock>, u: nat, v: nat) {
    exists p :: WalkBetween(blocks, p, u, v)
  }

  lemma ReachesSelf(blocks: seq<BasicBlock>, u: nat)
    ensures Reaches(blocks, u, u)
  {
    assert WalkBetween(blocks, [u], u, u);
  }

  lemma ReachesEdge(blocks: seq<BasicBlock>, u: nat, v: nat, w: nat)
    requires Reaches(blocks, u, v) && Edge(blocks, v, w)
    ensures Reaches(blocks, u, w)
  {
    var p :| WalkBetween(blocks, p, u, v);
    var q := p + [w];
    forall i | 0 <= i < |q| - 1 ensures Edge(blocks, q[i], q[i + 1]) {
      if i < |p| - 1 {
        assert Edge(blocks, p[i], p[i + 1]);
      }
    }
    assert WalkBetween(blocks, q, u, w);
    hide Edge;
  }

  ghost predicate Distinct(s: seq<nat>) {
    forall i, j :: 0 <= i < j < |s| ==> s[i] != s[j]
  }

  /** Every id the search can meet. */
  ghost function Universe(blocks: seq<BasicBlock>, entry: nat): set<nat> {
    {entry} + set u: nat, v: nat | 0 <= u < |blocks| && v in blocks[u].successors :: v
  }

  /** The successors of the block at position i of the order were all met, and each one was finished
      before it or leads back to it. */
  ghost predicate FinishedRight(blocks: seq<BasicBlock>, visited: set<nat>, order: seq<nat>, i: nat)
    requires i < |order|
  {
    forall v: nat {:trigger Edge(blocks, order[i], v)} :: Edge(blocks, order[i], v) ==>
      v in visited && (v in order[..i] || Reaches(blocks, v, order[i]))
  }

  ghost predicate DfsInv(blocks: seq<BasicBlock>, entry: nat, visited: set<nat>, order: seq<nat>) {
    && visited <= Universe(blocks, entry)
    && Distinct(order)
    && (forall i :: 0 <= i < |order| ==> order[i] in visited)
    && (forall v :: v in visited ==> Reaches(blocks, entry, v))
    && forall i :: 0 <= i < |order| ==> FinishedRight(blocks, visited, order, i)
  }

  /** Blocks met but not finished. */
  ghost function Open(visited: set<nat>, order: seq<nat>): set<nat> {
    set v | v in visited && v !in order
  }

  ghost predicate AllLeadTo(blocks: seq<BasicBlock>, open: set<nat>, id: nat) {
    forall g :: g in open ==> Reaches(blocks, g, id)
  }

  lemma FinishedMonotone(
    blocks: seq<BasicBlock>, visited: set<nat>, order: seq<nat>, visited': set<nat>, order': seq<nat>, i: nat)
    requires i < |order| && visited <= visited' && order <= order'
    requires FinishedRight(blocks, visited, order, i)
    ensures FinishedRight(blocks, visited', order', i)
  {
    assert order'[..i] == order[..i];
    hide Reaches, Edge;
  }

  lemma VisitKeeps(blocks: seq<BasicBlock>, entry: nat, visited: set<nat>, order: seq<nat>, id: nat)
    requires DfsInv(blocks, entry, visited, order) && Reaches(blocks, entry, id)
    requires id in Universe(blocks, entry)
    ensures DfsInv(blocks, entry, visited + {id}, order)
  {
    forall i | 0 <= i < |order| ensures FinishedRight(blocks, visited + {id}, order, i) {
      FinishedMonotone(blocks, visited, order, visited + {id}, order, i);
    }
    hide Reaches, FinishedRight, Universe;
  }

  lemma FinishKeeps(blocks: seq<BasicBlock>, entry: nat, visited: set<nat>, order: seq<nat>, id: nat)
    requires DfsInv(blocks, entry, visited, order)
    requires id in visited && id !in order && AllLeadTo(blocks, Open(visited, order), id)
    requires forall v :: Edge(blocks, id, v) ==> v in visited
    ensures DfsInv(blocks, entry, visited, order + [id])
  {
    var order' := order + [id];
    forall i | 0 <= i < |order'| ensures FinishedRight(blocks, visited, order', i) {
      if i < |order| {
        FinishedMonotone(blocks, visited, order, visited, order', i);
      } else {
        assert order'[..i] == order;
      }
    }
    hide Reaches, FinishedRight, Universe;
  }

  /** The recursive search: everything reachable from id through blocks not yet met is appended to the
      order, id itself last. */
  method Dfs(blocks: seq<BasicBlock>, ghost entry: nat, id: nat, visited0: set<nat>, order0: seq<nat>)
    returns (visited: set<nat>, order: seq<nat>)
    requires DfsInv(blocks, entry, visited0, order0)
    requires id !in visited0 && id in Universe(blocks, entry) && Reaches(blocks, entry, id)
    requires AllLeadTo(blocks, Open(visited0, order0), id)
    ensures DfsInv(blocks, entry, visited, order)
    ensures visited0 < visited && order0 < order && order[|order| - 1] == id && id in visited
    ensures Open(visited, order) == Open(visited0, order0)
    decreases |Universe(blocks, entry) - visited0|, 0
  {
    OpenWithId(blocks, visited0, order0, id);
    VisitKeeps(blocks, entry, visited0, order0, id);
    hide Reaches, FinishedRight, Universe, AllLeadTo, DfsInv, Open;
    UniverseShrinks(blocks, entry, visited0, id);
    visited, order := DfsSuccessors(blocks, entry, id, visited0 + {id}, order0);
    OpenWithoutId(visited, order, id);
    FinishKeeps(blocks, entry, visited, order, id);
    assert Open(visited0, order0) + {id} - {id} == Open(visited0, order0);
    order := order + [id];
  }

  /** The loop over the successors of a block that has just been met. */
  method DfsSuccessors(blocks: seq<BasicBlock>, ghost entry: nat, id: nat, visited0: set<nat>, order0: seq<nat>)
    returns (visited: set<nat>, order: seq<nat>)
    requires DfsInv(blocks, entry, visited0, order0)
    requires Reaches(blocks, entry, id) && AllLeadTo(blocks, Open(visited0, order0), id)
    ensures DfsInv(blocks, entry, visited, order)
    ensures visited0 <= visited && order0 <= order
    ensures Open(visited, order) == Open(visited0, order0)
    ensures forall v :: Edge(blocks, id, v) ==> v in visited
    decreases |Universe(blocks, entry) - visited0|, 1
  {
    hide Reaches, FinishedRight, Universe, AllLeadTo, DfsInv, Open;
    visited, order := visited0, order0;
    if id < |blocks| {
      var succs := blocks[id].successors;
      for k := 0 to |succs|
        invariant DfsInv(blocks, entry, visited, order)
        invariant visited0 <= visited && order0 <= order
        invariant Open(visited, order) == Open(visited0, order0)
        invariant forall j :: 0 <= j < k ==> succs[j] in visited
      {
        var s := succs[k];
        if s !in visited {
          SuccessorReady(blocks, entry, visited, Open(visited0, order0), id, s);
          SmallerUniverse(blocks, entry, visited0, visited);
          visited, order := Dfs(blocks, entry, s, visited, order);
        }
      }
    }
  }

  lemma OpenWithId(blocks: seq<BasicBlock>, visited: set<nat>, order: seq<nat>, id: nat)
    requires AllLeadTo(blocks, Open(visited, order), id)
    requires id !in visited && forall i :: 0 <= i < |order| ==> order[i] in visited
    ensures Open(visited + {id}, order) == Open(visited, order) + {id}
    ensures AllLeadTo(blocks, Open(visited, order) + {id}, id)
    ensures id !in Open(visited, order)
  {
    ReachesSelf(blocks, id);
    hide Reaches;
  }

  lemma OpenWithoutId(visited: set<nat>, order: seq<nat>, id: nat)
    requires id in Open(visited, order)
    ensures id in visited && id !in order
    ensures Open(visited, order + [id]) == Open(visited, order) - {id}
  {
  }

  lemma SuccessorReady(blocks: seq<BasicBlock>, entry: nat, visited: set<nat>, open: set<nat>, id: nat, s: nat)
    requires AllLeadTo(blocks, open, id) && Reaches(blocks, entry, id) && Edge(blocks, id, s)
    ensures s in Universe(blocks, entry) && Reaches(blocks, entry, s)
    ensures AllLeadTo(blocks, open, s)
  {
    ReachesEdge(blocks, entry, id, s);
    forall g | g in open ensures Reaches(blocks, g, s) {
      ReachesEdge(blocks, g, id, s);
    }
    hide Reaches;
  }

  lemma UniverseShrinks(blocks: seq<BasicBlock>, entry: nat, visited: set<nat>, id: nat)
    requires id in Universe(blocks, entry) && id !in visited
    ensures |Universe(blocks, entry) - (visited + {id})| < |Universe(blocks, entry) - visited|
  {
    hide Universe;
    var u := Universe(blocks, entry);
    assert u - visited == (u - (visited + {id})) + {id};
  }

  lemma SmallerUniverse(blocks: seq<BasicBlock>, entry: nat, small: set<nat>, big: set<nat>)
    requires small <= big
    ensures |Universe(blocks, entry) - big| <= |Universe(blocks, entry) - small|
  {
    hide Universe;
    var u := Universe(blocks, entry);
    assert u - small == (u - big) + ((u - small) - (u - big));
  }

  /** What a post-order is: each reachable block exactly once, the entry last, and every edge goes to
      an earlier block or closes a cycle. */
  ghost predicate IsPostOrder(blocks: seq<BasicBlock>, entry: nat, order: seq<nat>) {
    && Distinct(order)
    && (forall v: nat :: v in order <==> Reaches(blocks, entry, v))
    && |order| > 0 && order[|order| - 1] == entry
    && forall i, v: nat {:trigger Edge(blocks, order[i], v)} ::
         0 <= i < |order| && Edge(blocks, order[i], v) ==> v in order[..i] || Reaches(blocks, v, order[i])
  }

  lemma {:induction false} AllOnWalkFinished(
    blocks: seq<BasicBlock>, entry: nat, visited: set<nat>, order: seq<nat>, p: seq<nat>, k: nat)
    requires DfsInv(blocks, entry, visited, order) && entry in order
    requires forall v :: v in visited ==> v in order
    requires Walk(blocks, p) && p[0] == entry && k < |p|
    ensures p[k] in order
  {
    hide Reaches, Universe;
    if k > 0 {
      AllOnWalkFinished(blocks, entry, visited, order, p, k - 1);
      var i :| 0 <= i < |order| && order[i] == p[k - 1];
      assert FinishedRight(blocks, visited, order, i) && Edge(blocks, p[k - 1], p[k]);
    }
  }

  lemma FinishedSearch(blocks: seq<BasicBlock>, entry: nat, visited: set<nat>, order: seq<nat>)
    requires DfsInv(blocks, entry, visited, order)
    requires forall v :: v in visited ==> v in order
    requires |order| > 0 && order[|order| - 1] == entry
    ensures IsPostOrder(blocks, entry, order)
  {
    forall v: nat | Reaches(blocks, entry, v) ensures v in order {
      var p :| WalkBetween(blocks, p, entry, v);
      AllOnWalkFinished(blocks, entry, visited, order, p, |p| - 1);
    }
    hide Reaches, Universe;
    forall i, v: nat | 0 <= i < |order| && Edge(blocks, order[i], v)
      ensures v in order[..i] || Reaches(blocks, v, order[i])
    {
      assert FinishedRight(blocks, visited, order, i);
    }
  }

  method ComputePostOrder(blocks: seq<BasicBlock>, entry: nat) returns (order: seq<nat>)
    ensures if blocks == [] then order == [] else IsPostOrder(blocks, entry, order)
  {
    order := [];
    if blocks != [] {
      ReachesSelf(blocks, entry);
      hide Reaches, FinishedRight;
      var visited;
      visited, order := Dfs(blocks, entry, entry, {}, []);
      assert forall v :: v in visited ==> v in order by {
        assert Open({}, []) == {};
        forall v | v in visited ensures v in order {
          assert v !in Open(visited, order);
        }
      }
      FinishedSearch(blocks, entry, visited, order);
    }
  }

  function Reversed(s: seq<nat>): (r: seq<nat>)
    ensures |r| == |s| && forall i :: 0 <= i < |s| ==> r[i] == s[|s| - 1 - i]
  {
    seq(|s|, i requires 0 <= i < |s| => s[|s| - 1 - i])
  }

  method ComputeReversePostOrder(blocks: seq<BasicBlock>, entry: nat) returns (rpo: seq<nat>)
    ensures if blocks == [] then rpo == [] else IsPostOrder(blocks, entry, Reversed(rpo))
    ensures blocks != [] ==> forall v: nat :: v in rpo <==> Reaches(blocks, entry, v)
  {
    var order := ComputePostOrder(blocks, entry);
    rpo := [];
    for i := 0 to |order|
      invariant |rpo| == i
      invariant forall j :: 0 <= j < i ==> rpo[j] == order[i - 1 - j]
    {
      rpo := [order[i]] + rpo;
    }
    assert Reversed(rpo) == order;
    if blocks != [] {
      hide Reaches;
      ReversedMembers(rpo);
    }
  }

  lemma ReversedMembers(s: seq<nat>)
    ensures forall v: nat :: v in s <==> v in Reversed(s)
  {
    var r := Reversed(s);
    forall v: nat | v in s ensures v in r {
      var i :| 0 <= i < |s| && s[i] == v;
      assert r[|s| - 1 - i] == v;
    }
  }

  /** Without cycles among the reachable blocks, reverse post-order is a topological order. */
  lemma ReversePostOrderIsTopological(blocks: seq<BasicBlock>, entry: nat, rpo: seq<nat>, i: nat, j: nat)
    requires IsPostOrder(blocks, entry, Reversed(rpo))
    requires forall u: nat, v: nat :: Reaches(blocks, entry, u) && Edge(blocks, u, v) ==> !Reaches(blocks, v, u)
    requires i < |rpo| && j < |rpo| && Edge(blocks, rpo[i], rpo[j])
    ensures i < j
  {
    hide Reaches, Edge;
    var order := Reversed(rpo);
    var n := |rpo|;
    assert order[n - 1 - i] == rpo[i] && order[n - 1 - j] == rpo[j];
    assert Edge(blocks, order[n - 1 - i], rpo[j]);
    assert rpo[j] in order[..n - 1 - i];
    var k :| 0 <= k < n - 1 - i && order[k] == rpo[j];
    assert k == n - 1 - j;
  }
}
