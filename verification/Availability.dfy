/** The two availability fixpoints of core/register_tracker.cc: whether a value put in $v0 (on some
    path) or in $f0 (on every path) is available on entry to a block.  What an edge or a block does
    to the register is given by effect functions. */
module Availability {
  import opened Reachability
  import opened MustDefined

  /** What a run of instructions does to the register: leaves it, makes it available, spoils it, or
      makes it available but consumes it in a comparison. */
  datatype Effect = Keeps | Generates | Kills | Consumed

  /** Predecessor lists of reachable blocks only. */
  ghost predicate IsReachableGraph(preds: seq<seq<nat>>, reachable: seq<bool>) {
    && |preds| == |reachable| > 0 && IsGraph(preds)
    && forall v: nat, i: nat :: v < |preds| && i < |preds[v]| ==> reachable[preds[v][i]]
  }

  /** What the builder of reachability graphs delivers meets the condition of both loops. */
  lemma ReachablePredecessors(blocks: seq<Blocks.BasicBlock>, g: ReachabilityGraph)
    requires Describes(g, blocks, true) && |blocks| > 0
    ensures IsReachableGraph(g.predecessors, g.reachable)
  {
    forall v: nat, i: nat | v < |g.predecessors| && i < |g.predecessors[v]|
      ensures g.predecessors[v][i] < |blocks| && g.reachable[g.predecessors[v][i]]
    {
      assert g.predecessors[v][i] in g.predecessors[v];
    }
  }

  function EdgeAvail(e: Effect, before: bool): bool {
    match e
    case Generates => true
    case Kills => false
    case _ => before
  }

  // ----- Counting entries that can still flip -----

  function CountOf(bits: seq<bool>, value: bool): nat {
    if bits == [] then 0
    else CountOf(bits[..|bits| - 1], value) + (if bits[|bits| - 1] == value then 1 else 0)
  }

  lemma {:induction false} FlippingCounts(before: seq<bool>, after: seq<bool>, value: bool)
    requires |before| == |after|
    requires forall c :: 0 <= c < |before| && after[c] == value ==> before[c] == value
    ensures CountOf(after, value) <= CountOf(before, value)
    ensures after != before ==> CountOf(after, value) < CountOf(before, value)
  {
    if before != [] {
      var n := |before| - 1;
      FlippingCounts(before[..n], after[..n], value);
      assert before == before[..n] + [before[n]] && after == after[..n] + [after[n]];
    }
  }

  // ----- $v0: available on some path -----

  ghost predicate SomeInflow(preds: seq<seq<nat>>, edge: (nat, nat) -> Effect, ins: seq<bool>, b: nat)
    requires IsGraph(preds) && |ins| == |preds| && b < |preds|
  {
    b != 0 && exists i :: 0 <= i < |preds[b]| && EdgeAvail(edge(preds[b][i], b), ins[preds[b][i]])
  }

  /** q generates the value on its first edge and keeps it on all others, without re-entering block 0. */
  ghost predicate CarryingPath(preds: seq<seq<nat>>, edge: (nat, nat) -> Effect, q: seq<nat>) {
    && |q| >= 2 && (forall i :: 0 <= i < |q| ==> q[i] < |preds|)
    && (forall i :: 0 <= i < |q| - 1 ==> q[i] in preds[q[i + 1]])
    && (forall i :: 1 <= i < |q| ==> q[i] != 0)
    && edge(q[0], q[1]).Generates?
    && forall i {:trigger q[i]} :: 1 <= i < |q| - 1 ==>
         EdgeAvail(edge(q[i], q[i + 1]), true) && !edge(q[i], q[i + 1]).Generates?
  }

  ghost predicate Carried(preds: seq<seq<nat>>, edge: (nat, nat) -> Effect, b: nat) {
    exists q :: CarryingPath(preds, edge, q) && q[|q| - 1] == b
  }

  lemma CarriedStart(preds: seq<seq<nat>>, edge: (nat, nat) -> Effect, p: nat, b: nat)
    requires p < |preds| && 0 < b < |preds| && p in preds[b] && edge(p, b).Generates?
    ensures Carried(preds, edge, b)
  {
    var q := [p, b];
    assert CarryingPath(preds, edge, q) && q[|q| - 1] == b;
  }

  lemma CarriedStep(preds: seq<seq<nat>>, edge: (nat, nat) -> Effect, p: nat, b: nat)
    requires Carried(preds, edge, p) && 0 < b < |preds| && p in preds[b]
    requires EdgeAvail(edge(p, b), true)
    ensures Carried(preds, edge, b)
  {
    if edge(p, b).Generates? {
      CarriedStart(preds, edge, p, b);
    } else {
      var q :| CarryingPath(preds, edge, q) && q[|q| - 1] == p;
      var q' := q + [b];
      assert CarryingPath(preds, edge, q') && q'[|q'| - 1] == b;
    }
  }

  ghost predicate V0Justified(preds: seq<seq<nat>>, edge: (nat, nat) -> Effect, ins: seq<bool>)
    requires |ins| == |preds|
  {
    forall b: nat {:trigger ins[b]} :: b < |preds| && ins[b] ==> Carried(preds, edge, b)
  }

  /** Recomputing can only turn entries on. */
  ghost predicate V0Grows(
    preds: seq<seq<nat>>, edge: (nat, nat) -> Effect, block: nat -> Effect, ins: seq<bool>, out: seq<bool>)
    requires IsGraph(preds) && |ins| == |out| == |preds|
  {
    && (forall b: nat {:trigger ins[b]} :: b < |preds| && ins[b] ==> SomeInflow(preds, edge, ins, b))
    && forall b: nat {:trigger out[b]} :: b < |preds| && out[b] ==> EdgeAvail(block(b), ins[b])
  }

  ghost predicate V0SolvedAt(
    preds: seq<seq<nat>>, edge: (nat, nat) -> Effect, block: nat -> Effect, ins: seq<bool>, out: seq<bool>, b: nat)
    requires IsGraph(preds) && |ins| == |out| == |preds| && b < |preds|
  {
    ins[b] == SomeInflow(preds, edge, ins, b) && out[b] == EdgeAvail(block(b), ins[b])
  }

  lemma SomeInflowMonotone(
    preds: seq<seq<nat>>, edge: (nat, nat) -> Effect, small: seq<bool>, big: seq<bool>, b: nat)
    requires IsGraph(preds) && |small| == |big| == |preds| && b < |preds|
    requires forall c :: 0 <= c < |preds| && small[c] ==> big[c]
    requires SomeInflow(preds, edge, small, b)
    ensures SomeInflow(preds, edge, big, b)
  {
    var i :| 0 <= i < |preds[b]| && EdgeAvail(edge(preds[b][i], b), small[preds[b][i]]);
    assert EdgeAvail(edge(preds[b][i], b), big[preds[b][i]]);
  }

  lemma SomeInflowCarried(preds: seq<seq<nat>>, edge: (nat, nat) -> Effect, ins: seq<bool>, b: nat)
    requires IsGraph(preds) && |ins| == |preds| && b < |preds|
    requires V0Justified(preds, edge, ins) && SomeInflow(preds, edge, ins, b)
    ensures Carried(preds, edge, b)
  {
    var i :| 0 <= i < |preds[b]| && EdgeAvail(edge(preds[b][i], b), ins[preds[b][i]]);
    var p := preds[b][i];
    assert p in preds[b];
    if edge(p, b).Generates? {
      CarriedStart(preds, edge, p, b);
    } else {
      CarriedStep(preds, edge, p, b);
    }
  }

  ghost predicate V0SweepInv(
    preds: seq<seq<nat>>, reachable: seq<bool>, edge: (nat, nat) -> Effect, block: nat -> Effect,
    ins0: seq<bool>, out0: seq<bool>, ins: seq<bool>, out: seq<bool>, changed: bool, b: nat)
    requires IsGraph(preds) && |reachable| == |ins0| == |out0| == |preds|
  {
    && |ins| == |out| == |preds| && b <= |preds|
    && V0Justified(preds, edge, ins) && V0Grows(preds, edge, block, ins, out)
    && (forall c :: 0 <= c < |preds| ==> (ins0[c] ==> ins[c]) && (out0[c] ==> out[c]))
    && (forall c :: b <= c < |preds| ==> ins[c] == ins0[c] && out[c] == out0[c])
    && (!changed ==> ins == ins0 && out == out0)
    && (!changed ==> forall c: nat :: c < b && reachable[c] ==> V0SolvedAt(preds, edge, block, ins, out, c))
    && (changed ==> exists c :: 0 <= c < b && (ins[c] != ins0[c] || out[c] != out0[c]))
  }

  lemma V0Update(
    preds: seq<seq<nat>>, edge: (nat, nat) -> Effect, block: nat -> Effect, ins: seq<bool>, out: seq<bool>, b: nat)
    requires IsGraph(preds) && |ins| == |out| == |preds| && b < |preds|
    requires V0Justified(preds, edge, ins) && V0Grows(preds, edge, block, ins, out)
    ensures var ins' := ins[b := SomeInflow(preds, edge, ins, b)];
            var out' := out[b := EdgeAvail(block(b), ins'[b])];
            && V0Justified(preds, edge, ins') && V0Grows(preds, edge, block, ins', out')
            && (ins[b] ==> ins'[b]) && (out[b] ==> out'[b])
  {
    var inflow := SomeInflow(preds, edge, ins, b);
    var ins' := ins[b := inflow];
    if inflow {
      SomeInflowCarried(preds, edge, ins, b);
    }
    forall c: nat | c < |preds| && ins'[c] ensures SomeInflow(preds, edge, ins', c) {
      assert c != b ==> ins[c];
      SomeInflowMonotone(preds, edge, ins, ins', c);
    }
    hide SomeInflow, Carried;
  }

  lemma V0SweepChange(
    preds: seq<seq<nat>>, reachable: seq<bool>, edge: (nat, nat) -> Effect, block: nat -> Effect,
    ins0: seq<bool>, out0: seq<bool>, ins: seq<bool>, out: seq<bool>, changed: bool, b: nat)
    requires IsGraph(preds) && |reachable| == |ins0| == |out0| == |preds| && b < |preds|
    requires V0SweepInv(preds, reachable, edge, block, ins0, out0, ins, out, changed, b)
    ensures var ins' := ins[b := SomeInflow(preds, edge, ins, b)];
            var out' := out[b := EdgeAvail(block(b), ins'[b])];
            if changed || ins' != ins || out' != out
            then exists c :: 0 <= c < b + 1 && (ins'[c] != ins0[c] || out'[c] != out0[c])
            else ins' == ins && out' == out
                 && forall c: nat :: c < b + 1 && reachable[c] ==> V0SolvedAt(preds, edge, block, ins', out', c)
  {
    hide SomeInflow, V0Justified, V0Grows, EdgeAvail;
    var ins' := ins[b := SomeInflow(preds, edge, ins, b)];
    var out' := out[b := EdgeAvail(block(b), ins'[b])];
    if changed {
      var c :| 0 <= c < b && (ins[c] != ins0[c] || out[c] != out0[c]);
      assert ins'[c] == ins[c] && out'[c] == out[c];
    } else if ins' != ins || out' != out {
      assert ins'[b] != ins0[b] || out'[b] != out0[b];
    }
  }

  lemma V0SweepStep(
    preds: seq<seq<nat>>, reachable: seq<bool>, edge: (nat, nat) -> Effect, block: nat -> Effect,
    ins0: seq<bool>, out0: seq<bool>, ins: seq<bool>, out: seq<bool>, changed: bool, b: nat)
    requires IsGraph(preds) && |reachable| == |ins0| == |out0| == |preds| && b < |preds|
    requires V0SweepInv(preds, reachable, edge, block, ins0, out0, ins, out, changed, b)
    ensures var ins' := ins[b := SomeInflow(preds, edge, ins, b)];
            var out' := out[b := EdgeAvail(block(b), ins'[b])];
            V0SweepInv(preds, reachable, edge, block, ins0, out0, ins', out',
                       changed || ins' != ins || out' != out, b + 1)
  {
    hide SomeInflow, V0Justified, V0Grows, EdgeAvail, V0SolvedAt;
    V0Update(preds, edge, block, ins, out, b);
    V0SweepChange(preds, reachable, edge, block, ins0, out0, ins, out, changed, b);
  }

  method SomePredecessorAvail(preds: seq<nat>, b: nat, edge: (nat, nat) -> Effect, ins: seq<bool>)
    returns (avail: bool)
    requires Bounded(preds, |ins|)
    ensures avail <==> exists i :: 0 <= i < |preds| && EdgeAvail(edge(preds[i], b), ins[preds[i]])
  {
    for i := 0 to |preds|
      invariant forall j :: 0 <= j < i ==> !EdgeAvail(edge(preds[j], b), ins[preds[j]])
    {
      var p := preds[i];
      if EdgeAvail(edge(p, b), ins[p]) {
        return true;
      }
    }
    avail := false;
  }

  method V0Sweep(
    preds: seq<seq<nat>>, reachable: seq<bool>, edge: (nat, nat) -> Effect, block: nat -> Effect,
    ins0: seq<bool>, out0: seq<bool>)
    returns (ins: seq<bool>, out: seq<bool>, changed: bool)
    requires IsGraph(preds) && |reachable| == |ins0| == |out0| == |preds|
    requires V0Justified(preds, edge, ins0) && V0Grows(preds, edge, block, ins0, out0)
    ensures V0SweepInv(preds, reachable, edge, block, ins0, out0, ins, out, changed, |preds|)
  {
    ins, out, changed := ins0, out0, false;
    for b := 0 to |preds|
      invariant |ins| == |out| == |preds|
      invariant V0SweepInv(preds, reachable, edge, block, ins0, out0, ins, out, changed, b)
    {
      if reachable[b] {
        V0SweepStep(preds, reachable, edge, block, ins0, out0, ins, out, changed, b);
        ghost var ins1, out1, was := ins, out, changed;
        var newIn := false;
        if b != 0 && preds[b] != [] {
          newIn := SomePredecessorAvail(preds[b], b, edge, ins);
        }
        assert newIn == SomeInflow(preds, edge, ins, b);
        if newIn != ins[b] {
          ins := ins[b := newIn];
          changed := true;
        }
        var newOut := EdgeAvail(block(b), ins[b]);
        if newOut != out[b] {
          out := out[b := newOut];
          changed := true;
        }
        assert ins == ins1[b := newIn] && out == out1[b := newOut];
        assert changed == (was || ins != ins1 || out != out1);
      }
      hide V0SweepInv, SomeInflow;
    }
  }

  ghost predicate V0Solved(
    preds: seq<seq<nat>>, reachable: seq<bool>, edge: (nat, nat) -> Effect, block: nat -> Effect,
    ins: seq<bool>, out: seq<bool>)
  {
    && IsGraph(preds) && |reachable| == |ins| == |out| == |preds|
    && forall b: nat :: b < |preds| && reachable[b] ==> V0SolvedAt(preds, edge, block, ins, out, b)
  }

  lemma V0Progress(
    preds: seq<seq<nat>>, reachable: seq<bool>, edge: (nat, nat) -> Effect, block: nat -> Effect,
    ins0: seq<bool>, out0: seq<bool>, ins: seq<bool>, out: seq<bool>, changed: bool)
    requires IsGraph(preds) && |reachable| == |ins0| == |out0| == |preds|
    requires V0SweepInv(preds, reachable, edge, block, ins0, out0, ins, out, changed, |preds|)
    ensures changed ==> CountOf(ins, false) + CountOf(out, false) < CountOf(ins0, false) + CountOf(out0, false)
    ensures !changed ==> ins == ins0 && out == out0 && V0Solved(preds, reachable, edge, block, ins, out)
    ensures |ins| == |out| == |preds| && V0Justified(preds, edge, ins) && V0Grows(preds, edge, block, ins, out)
  {
    hide V0Justified, V0Grows, V0SolvedAt, CountOf;
    FlippingCounts(ins0, ins, false);
    FlippingCounts(out0, out, false);
  }

  lemma V0Start(preds: seq<seq<nat>>, edge: (nat, nat) -> Effect, block: nat -> Effect, ins: seq<bool>, out: seq<bool>)
    requires IsGraph(preds) && |ins| == |out| == |preds| > 0
    requires forall b :: 0 <= b < |ins| ==> !ins[b]
    requires forall b :: 0 <= b < |out| ==> (out[b] ==> b == 0 && block(0).Generates?)
    ensures V0Justified(preds, edge, ins) && V0Grows(preds, edge, block, ins, out)
  {
  }

  lemma {:induction false} CarriedIsIn(
    preds: seq<seq<nat>>, reachable: seq<bool>, edge: (nat, nat) -> Effect, block: nat -> Effect,
    ins: seq<bool>, out: seq<bool>, q: seq<nat>, i: nat)
    requires IsReachableGraph(preds, reachable) && V0Solved(preds, reachable, edge, block, ins, out)
    requires CarryingPath(preds, edge, q) && 1 <= i < |q| && reachable[q[i]]
    ensures ins[q[i]]
  {
    var p, b := q[i - 1], q[i];
    assert p in preds[b];
    var k :| 0 <= k < |preds[b]| && preds[b][k] == p;
    assert reachable[p];
    if i > 1 {
      CarriedIsIn(preds, reachable, edge, block, ins, out, q, i - 1);
    }
    assert EdgeAvail(edge(preds[b][k], b), ins[preds[b][k]]);
    assert V0SolvedAt(preds, edge, block, ins, out, b);
  }

  /** The loop of DetermineReturnsV0: a reachable block has the value available on entry exactly when
      some path generates it on one edge and then keeps it, without passing through block 0 again.
      The availability at block ends follows from the block effects. */
  method SolveV0(preds: seq<seq<nat>>, reachable: seq<bool>, edge: (nat, nat) -> Effect, block: nat -> Effect)
    returns (ins: seq<bool>, out: seq<bool>)
    requires IsReachableGraph(preds, reachable)
    ensures |ins| == |out| == |preds|
    ensures forall b: nat :: b < |preds| && reachable[b] ==> (ins[b] <==> Carried(preds, edge, b))
    ensures forall b: nat :: b < |preds| && reachable[b] ==> out[b] == EdgeAvail(block(b), ins[b])
  {
    ins := seq(|preds|, b => false);
    out := seq(|preds|, b => false);
    out := out[0 := block(0).Generates?];
    V0Start(preds, edge, block, ins, out);
    var changed := true;
    while changed
      invariant |ins| == |out| == |preds|
      invariant V0Justified(preds, edge, ins) && V0Grows(preds, edge, block, ins, out)
      invariant !changed ==> V0Solved(preds, reachable, edge, block, ins, out)
      decreases CountOf(ins, false) + CountOf(out, false), changed
    {
      hide V0Justified, V0Grows, V0Solved, V0SweepInv, CountOf;
      ghost var ins0, out0 := ins, out;
      ins, out, changed := V0Sweep(preds, reachable, edge, block, ins, out);
      V0Progress(preds, reachable, edge, block, ins0, out0, ins, out, changed);
    }
    forall b: nat | b < |preds| && reachable[b]
      ensures (ins[b] <==> Carried(preds, edge, b)) && out[b] == EdgeAvail(block(b), ins[b])
    {
      assert V0SolvedAt(preds, edge, block, ins, out, b);
      if q :| CarryingPath(preds, edge, q) && q[|q| - 1] == b {
        CarriedIsIn(preds, reachable, edge, block, ins, out, q, |q| - 1);
      }
    }
    hide SomeInflow;
  }

  // ----- $f0: available on every path -----

  /** Another predecessor of the block leaves an unconsumed value. */
  predicate SiblingGenerates(preds: seq<nat>, p: nat, block: nat -> Effect) {
    exists i :: 0 <= i < |preds| && preds[i] != p && block(preds[i]).Generates?
  }

  /** A consumed value still counts when a sibling leaves an unconsumed one. */
  function Resolved(preds: seq<nat>, e: Effect, p: nat, block: nat -> Effect): Effect {
    if e.Consumed? then (if SiblingGenerates(preds, p, block) then Generates else Kills) else e
  }

  ghost function F0Edge(preds: seq<seq<nat>>, edge: (nat, nat) -> Effect, block: nat -> Effect, p: nat, b: nat): Effect
    requires b < |preds|
  {
    Resolved(preds[b], edge(p, b), p, block)
  }

  ghost predicate EveryInflow(
    preds: seq<seq<nat>>, edge: (nat, nat) -> Effect, block: nat -> Effect, ins: seq<bool>, b: nat)
    requires IsGraph(preds) && |ins| == |preds| && b < |preds|
  {
    && b != 0 && preds[b] != []
    && forall i {:trigger preds[b][i]} :: 0 <= i < |preds[b]| ==>
         EdgeAvail(F0Edge(preds, edge, block, preds[b][i], b), ins[preds[b][i]])
  }

  /** q spoils the value on its first edge, or starts where nothing has generated it, and keeps it on
      all further edges. */
  ghost predicate SpoilingPath(
    preds: seq<seq<nat>>, edge: (nat, nat) -> Effect, block: nat -> Effect, q: seq<nat>)
  {
    && |q| >= 1 && (forall i :: 0 <= i < |q| ==> q[i] < |preds|)
    && (forall i :: 0 <= i < |q| - 1 ==> q[i] in preds[q[i + 1]])
    && (forall i {:trigger q[i]} :: 1 <= i < |q| - 1 ==> F0Edge(preds, edge, block, q[i], q[i + 1]).Keeps?)
    && (if |q| > 1 && F0Edge(preds, edge, block, q[0], q[1]).Kills? then true
        else IsRoot(preds, q[0]) && (|q| > 1 ==> F0Edge(preds, edge, block, q[0], q[1]).Keeps?))
  }

  ghost predicate Spoiled(preds: seq<seq<nat>>, edge: (nat, nat) -> Effect, block: nat -> Effect, b: nat) {
    exists q :: SpoilingPath(preds, edge, block, q) && q[|q| - 1] == b
  }

  lemma SpoiledRoot(preds: seq<seq<nat>>, edge: (nat, nat) -> Effect, block: nat -> Effect, b: nat)
    requires b < |preds| && IsRoot(preds, b)
    ensures Spoiled(preds, edge, block, b)
  {
    var q := [b];
    assert SpoilingPath(preds, edge, block, q) && q[|q| - 1] == b;
  }

  lemma SpoiledEdge(preds: seq<seq<nat>>, edge: (nat, nat) -> Effect, block: nat -> Effect, p: nat, b: nat)
    requires p < |preds| && b < |preds| && p in preds[b] && F0Edge(preds, edge, block, p, b).Kills?
    ensures Spoiled(preds, edge, block, b)
  {
    var q := [p, b];
    hide F0Edge;
    assert SpoilingPath(preds, edge, block, q) && q[|q| - 1] == b;
  }

  lemma SpoiledStep(preds: seq<seq<nat>>, edge: (nat, nat) -> Effect, block: nat -> Effect, p: nat, b: nat)
    requires Spoiled(preds, edge, block, p) && b < |preds| && p in preds[b]
    requires F0Edge(preds, edge, block, p, b).Keeps?
    ensures Spoiled(preds, edge, block, b)
  {
    hide F0Edge, IsRoot;
    var q :| SpoilingPath(preds, edge, block, q) && q[|q| - 1] == p;
    var q' := q + [b];
    assert |q| > 1 ==> q'[1] == q[1];
    assert SpoilingPath(preds, edge, block, q') && q'[|q'| - 1] == b;
  }

  ghost predicate F0Justified(preds: seq<seq<nat>>, edge: (nat, nat) -> Effect, block: nat -> Effect, ins: seq<bool>)
    requires |ins| == |preds|
  {
    forall b: nat {:trigger ins[b]} :: b < |preds| && !ins[b] ==> Spoiled(preds, edge, block, b)
  }

  /** Recomputing can only turn entries off. */
  ghost predicate F0Shrinks(
    preds: seq<seq<nat>>, edge: (nat, nat) -> Effect, block: nat -> Effect, ins: seq<bool>, out: seq<bool>)
    requires IsGraph(preds) && |ins| == |out| == |preds|
  {
    && (forall b: nat {:trigger ins[b]} :: b < |preds| && EveryInflow(preds, edge, block, ins, b) ==> ins[b])
    && forall b: nat {:trigger out[b]} :: b < |preds| && EdgeAvail(block(b), ins[b]) ==> out[b]
  }

  ghost predicate F0SolvedAt(
    preds: seq<seq<nat>>, edge: (nat, nat) -> Effect, block: nat -> Effect, ins: seq<bool>, out: seq<bool>, b: nat)
    requires IsGraph(preds) && |ins| == |out| == |preds| && b < |preds|
  {
    ins[b] == EveryInflow(preds, edge, block, ins, b) && out[b] == EdgeAvail(block(b), ins[b])
  }

  lemma EveryInflowMonotone(
    preds: seq<seq<nat>>, edge: (nat, nat) -> Effect, block: nat -> Effect, small: seq<bool>, big: seq<bool>, b: nat)
    requires IsGraph(preds) && |small| == |big| == |preds| && b < |preds|
    requires forall c :: 0 <= c < |preds| && small[c] ==> big[c]
    requires EveryInflow(preds, edge, block, small, b)
    ensures EveryInflow(preds, edge, block, big, b)
  {
    hide F0Edge;
    forall i | 0 <= i < |preds[b]|
      ensures EdgeAvail(F0Edge(preds, edge, block, preds[b][i], b), big[preds[b][i]])
    {
      assert EdgeAvail(F0Edge(preds, edge, block, preds[b][i], b), small[preds[b][i]]);
    }
  }

  lemma NoInflowSpoiled(preds: seq<seq<nat>>, edge: (nat, nat) -> Effect, block: nat -> Effect, ins: seq<bool>, b: nat)
    requires IsGraph(preds) && |ins| == |preds| && b < |preds|
    requires F0Justified(preds, edge, block, ins) && !EveryInflow(preds, edge, block, ins, b)
    ensures Spoiled(preds, edge, block, b)
  {
    hide Spoiled;
    if IsRoot(preds, b) {
      SpoiledRoot(preds, edge, block, b);
    } else {
      var i :| 0 <= i < |preds[b]| && !EdgeAvail(F0Edge(preds, edge, block, preds[b][i], b), ins[preds[b][i]]);
      var p := preds[b][i];
      assert p in preds[b];
      if F0Edge(preds, edge, block, p, b).Kills? {
        SpoiledEdge(preds, edge, block, p, b);
      } else {
        SpoiledStep(preds, edge, block, p, b);
      }
    }
  }

  ghost predicate F0SweepInv(
    preds: seq<seq<nat>>, reachable: seq<bool>, edge: (nat, nat) -> Effect, block: nat -> Effect,
    ins0: seq<bool>, out0: seq<bool>, ins: seq<bool>, out: seq<bool>, changed: bool, b: nat)
    requires IsGraph(preds) && |reachable| == |ins0| == |out0| == |preds|
  {
    && |ins| == |out| == |preds| && b <= |preds|
    && F0Justified(preds, edge, block, ins) && F0Shrinks(preds, edge, block, ins, out)
    && (forall c :: 0 <= c < |preds| ==> (ins[c] ==> ins0[c]) && (out[c] ==> out0[c]))
    && (forall c :: b <= c < |preds| ==> ins[c] == ins0[c] && out[c] == out0[c])
    && (!changed ==> ins == ins0 && out == out0)
    && (!changed ==> forall c: nat :: c < b && reachable[c] ==> F0SolvedAt(preds, edge, block, ins, out, c))
    && (changed ==> exists c :: 0 <= c < b && (ins[c] != ins0[c] || out[c] != out0[c]))
  }

  lemma F0Update(
    preds: seq<seq<nat>>, edge: (nat, nat) -> Effect, block: nat -> Effect, ins: seq<bool>, out: seq<bool>, b: nat)
    requires IsGraph(preds) && |ins| == |out| == |preds| && b < |preds|
    requires F0Justified(preds, edge, block, ins) && F0Shrinks(preds, edge, block, ins, out)
    ensures var ins' := ins[b := EveryInflow(preds, edge, block, ins, b)];
            var out' := out[b := EdgeAvail(block(b), ins'[b])];
            && F0Justified(preds, edge, block, ins') && F0Shrinks(preds, edge, block, ins', out')
            && (ins'[b] ==> ins[b]) && (out'[b] ==> out[b])
  {
    var inflow := EveryInflow(preds, edge, block, ins, b);
    var ins' := ins[b := inflow];
    if !inflow {
      NoInflowSpoiled(preds, edge, block, ins, b);
    }
    forall c: nat | c < |preds| && EveryInflow(preds, edge, block, ins', c) ensures ins'[c] {
      EveryInflowMonotone(preds, edge, block, ins', ins, c);
    }
    hide EveryInflow, Spoiled;
  }

  lemma F0SweepChange(
    preds: seq<seq<nat>>, reachable: seq<bool>, edge: (nat, nat) -> Effect, block: nat -> Effect,
    ins0: seq<bool>, out0: seq<bool>, ins: seq<bool>, out: seq<bool>, changed: bool, b: nat)
    requires IsGraph(preds) && |reachable| == |ins0| == |out0| == |preds| && b < |preds|
    requires F0SweepInv(preds, reachable, edge, block, ins0, out0, ins, out, changed, b)
    ensures var ins' := ins[b := EveryInflow(preds, edge, block, ins, b)];
            var out' := out[b := EdgeAvail(block(b), ins'[b])];
            if changed || ins' != ins || out' != out
            then exists c :: 0 <= c < b + 1 && (ins'[c] != ins0[c] || out'[c] != out0[c])
            else ins' == ins && out' == out
                 && forall c: nat :: c < b + 1 && reachable[c] ==> F0SolvedAt(preds, edge, block, ins', out', c)
  {
    hide EveryInflow, F0Justified, F0Shrinks, EdgeAvail;
    var ins' := ins[b := EveryInflow(preds, edge, block, ins, b)];
    var out' := out[b := EdgeAvail(block(b), ins'[b])];
    if changed {
      var c :| 0 <= c < b && (ins[c] != ins0[c] || out[c] != out0[c]);
      assert ins'[c] == ins[c] && out'[c] == out[c];
    } else if ins' != ins || out' != out {
      assert ins'[b] != ins0[b] || out'[b] != out0[b];
    }
  }

  lemma F0SweepStep(
    preds: seq<seq<nat>>, reachable: seq<bool>, edge: (nat, nat) -> Effect, block: nat -> Effect,
    ins0: seq<bool>, out0: seq<bool>, ins: seq<bool>, out: seq<bool>, changed: bool, b: nat)
    requires IsGraph(preds) && |reachable| == |ins0| == |out0| == |preds| && b < |preds|
    requires F0SweepInv(preds, reachable, edge, block, ins0, out0, ins, out, changed, b)
    ensures var ins' := ins[b := EveryInflow(preds, edge, block, ins, b)];
            var out' := out[b := EdgeAvail(block(b), ins'[b])];
            F0SweepInv(preds, reachable, edge, block, ins0, out0, ins', out',
                       changed || ins' != ins || out' != out, b + 1)
  {
    hide EveryInflow, F0Justified, F0Shrinks, EdgeAvail, F0SolvedAt;
    F0Update(preds, edge, block, ins, out, b);
    F0SweepChange(preds, reachable, edge, block, ins0, out0, ins, out, changed, b);
  }

  method FindSibling(preds: seq<nat>, p: nat, block: nat -> Effect) returns (found: bool)
    ensures found <==> SiblingGenerates(preds, p, block)
  {
    for i := 0 to |preds|
      invariant forall j :: 0 <= j < i ==> !(preds[j] != p && block(preds[j]).Generates?)
    {
      if preds[i] != p && block(preds[i]).Generates? {
        return true;
      }
    }
    found := false;
  }

  method EveryPredecessorAvail(preds: seq<nat>, b: nat, edge: (nat, nat) -> Effect, block: nat -> Effect, ins: seq<bool>)
    returns (avail: bool)
    requires Bounded(preds, |ins|)
    ensures avail <==> forall i {:trigger preds[i]} :: 0 <= i < |preds| ==>
              EdgeAvail(Resolved(preds, edge(preds[i], b), preds[i], block), ins[preds[i]])
  {
    hide SiblingGenerates;
    for i := 0 to |preds|
      invariant forall j {:trigger preds[j]} :: 0 <= j < i ==>
                  EdgeAvail(Resolved(preds, edge(preds[j], b), preds[j], block), ins[preds[j]])
    {
      var p := preds[i];
      var effect := edge(p, b);
      var edgeAvail := EdgeAvail(effect, ins[p]);
      if effect.Consumed? {
        edgeAvail := FindSibling(preds, p, block);
      }
      if !edgeAvail {
        return false;
      }
    }
    avail := true;
  }

  method F0Sweep(
    preds: seq<seq<nat>>, reachable: seq<bool>, edge: (nat, nat) -> Effect, block: nat -> Effect,
    ins0: seq<bool>, out0: seq<bool>)
    returns (ins: seq<bool>, out: seq<bool>, changed: bool)
    requires IsGraph(preds) && |reachable| == |ins0| == |out0| == |preds|
    requires F0Justified(preds, edge, block, ins0) && F0Shrinks(preds, edge, block, ins0, out0)
    ensures F0SweepInv(preds, reachable, edge, block, ins0, out0, ins, out, changed, |preds|)
  {
    ins, out, changed := ins0, out0, false;
    for b := 0 to |preds|
      invariant |ins| == |out| == |preds|
      invariant F0SweepInv(preds, reachable, edge, block, ins0, out0, ins, out, changed, b)
    {
      hide Resolved, F0Justified, F0Shrinks, F0SolvedAt;
      if reachable[b] {
        F0SweepStep(preds, reachable, edge, block, ins0, out0, ins, out, changed, b);
        ghost var ins1, out1, was := ins, out, changed;
        var newIn := false;
        if b != 0 && preds[b] != [] {
          newIn := EveryPredecessorAvail(preds[b], b, edge, block, ins);
        }
        assert newIn == EveryInflow(preds, edge, block, ins, b);
        if newIn != ins[b] {
          ins := ins[b := newIn];
          changed := true;
        }
        var newOut := EdgeAvail(block(b), ins[b]);
        if newOut != out[b] {
          out := out[b := newOut];
          changed := true;
        }
        assert ins == ins1[b := newIn] && out == out1[b := newOut];
        assert changed == (was || ins != ins1 || out != out1);
      }
      hide F0SweepInv, EveryInflow;
    }
  }

  ghost predicate F0Solved(
    preds: seq<seq<nat>>, reachable: seq<bool>, edge: (nat, nat) -> Effect, block: nat -> Effect,
    ins: seq<bool>, out: seq<bool>)
  {
    && IsGraph(preds) && |reachable| == |ins| == |out| == |preds|
    && forall b: nat :: b < |preds| && reachable[b] ==> F0SolvedAt(preds, edge, block, ins, out, b)
  }

  lemma F0Progress(
    preds: seq<seq<nat>>, reachable: seq<bool>, edge: (nat, nat) -> Effect, block: nat -> Effect,
    ins0: seq<bool>, out0: seq<bool>, ins: seq<bool>, out: seq<bool>, changed: bool)
    requires IsGraph(preds) && |reachable| == |ins0| == |out0| == |preds|
    requires F0SweepInv(preds, reachable, edge, block, ins0, out0, ins, out, changed, |preds|)
    ensures changed ==> CountOf(ins, true) + CountOf(out, true) < CountOf(ins0, true) + CountOf(out0, true)
    ensures !changed ==> ins == ins0 && out == out0 && F0Solved(preds, reachable, edge, block, ins, out)
    ensures |ins| == |out| == |preds| && F0Justified(preds, edge, block, ins)
    ensures F0Shrinks(preds, edge, block, ins, out)
  {
    hide F0Justified, F0Shrinks, F0SolvedAt, CountOf;
    FlippingCounts(ins0, ins, true);
    FlippingCounts(out0, out, true);
  }

  lemma F0Start(preds: seq<seq<nat>>, edge: (nat, nat) -> Effect, block: nat -> Effect, ins: seq<bool>, out: seq<bool>)
    requires IsGraph(preds) && |ins| == |out| == |preds| > 0
    requires forall b :: 0 <= b < |ins| ==> (ins[b] <==> b != 0)
    requires forall b :: 0 <= b < |out| ==> (out[b] <==> b != 0 || block(0).Generates?)
    ensures F0Justified(preds, edge, block, ins) && F0Shrinks(preds, edge, block, ins, out)
  {
    SpoiledRoot(preds, edge, block, 0);
    hide Spoiled;
  }

  lemma {:induction false} SpoiledIsOut(
    preds: seq<seq<nat>>, reachable: seq<bool>, edge: (nat, nat) -> Effect, block: nat -> Effect,
    ins: seq<bool>, out: seq<bool>, q: seq<nat>, i: nat)
    requires IsReachableGraph(preds, reachable) && F0Solved(preds, reachable, edge, block, ins, out)
    requires SpoilingPath(preds, edge, block, q) && i < |q| && reachable[q[i]]
    requires i > 0 || IsRoot(preds, q[0])
    ensures !ins[q[i]]
  {
    hide F0Edge;
    var b := q[i];
    assert F0SolvedAt(preds, edge, block, ins, out, b);
    if i > 0 {
      var p := q[i - 1];
      assert p in preds[b];
      var k :| 0 <= k < |preds[b]| && preds[b][k] == p;
      assert reachable[p];
      if i > 1 || !F0Edge(preds, edge, block, q[0], q[1]).Kills? {
        SpoiledIsOut(preds, reachable, edge, block, ins, out, q, i - 1);
      }
      assert !EdgeAvail(F0Edge(preds, edge, block, preds[b][k], b), ins[preds[b][k]]);
    }
  }

  /** The loop of DetermineReturnsF0: a reachable block has the value available on entry exactly when
      no path to it spoils the value, or comes from a start without generating it.  The availability
      at block ends follows from the block effects. */
  method SolveF0(preds: seq<seq<nat>>, reachable: seq<bool>, edge: (nat, nat) -> Effect, block: nat -> Effect)
    returns (ins: seq<bool>, out: seq<bool>)
    requires IsReachableGraph(preds, reachable)
    ensures |ins| == |out| == |preds|
    ensures forall b: nat :: b < |preds| && reachable[b] ==> (ins[b] <==> !Spoiled(preds, edge, block, b))
    ensures forall b: nat :: b < |preds| && reachable[b] ==> out[b] == EdgeAvail(block(b), ins[b])
  {
    ins := seq(|preds|, b => true);
    out := seq(|preds|, b => true);
    ins := ins[0 := false];
    out := out[0 := block(0).Generates?];
    F0Start(preds, edge, block, ins, out);
    var changed := true;
    while changed
      invariant |ins| == |out| == |preds|
      invariant F0Justified(preds, edge, block, ins) && F0Shrinks(preds, edge, block, ins, out)
      invariant !changed ==> F0Solved(preds, reachable, edge, block, ins, out)
      decreases CountOf(ins, true) + CountOf(out, true), changed
    {
      hide F0Justified, F0Shrinks, F0Solved, F0SweepInv, CountOf;
      ghost var ins0, out0 := ins, out;
      ins, out, changed := F0Sweep(preds, reachable, edge, block, ins, out);
      F0Progress(preds, reachable, edge, block, ins0, out0, ins, out, changed);
    }
    F0Meaning(preds, reachable, edge, block, ins, out);
    hide F0Solved, F0Justified, F0Shrinks;
  }

  lemma F0Meaning(
    preds: seq<seq<nat>>, reachable: seq<bool>, edge: (nat, nat) -> Effect, block: nat -> Effect,
    ins: seq<bool>, out: seq<bool>)
    requires IsReachableGraph(preds, reachable) && F0Solved(preds, reachable, edge, block, ins, out)
    requires F0Justified(preds, edge, block, ins)
    ensures forall b: nat :: b < |preds| && reachable[b] ==> (ins[b] <==> !Spoiled(preds, edge, block, b))
    ensures forall b: nat :: b < |preds| && reachable[b] ==> out[b] == EdgeAvail(block(b), ins[b])
  {
    forall b: nat | b < |preds| && reachable[b]
      ensures (ins[b] <==> !Spoiled(preds, edge, block, b)) && out[b] == EdgeAvail(block(b), ins[b])
    {
      assert F0SolvedAt(preds, edge, block, ins, out, b);
      if q :| SpoilingPath(preds, edge, block, q) && q[|q| - 1] == b {
        SpoiledIsOut(preds, reachable, edge, block, ins, out, q, |q| - 1);
      }
    }
    hide EveryInflow, SpoilingPath, IsReachableGraph;
  }
}
