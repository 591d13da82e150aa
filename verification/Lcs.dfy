/** The canonical opcode comparison of core/register_tracker.cc: a Hunt-Szymanski computation of the
    length of a longest common subsequence, with the common prefix and suffix trimmed first.  The
    reference is the textbook recurrence, which is in turn shown to be the maximum length of a
    common subsequence. */
module Lcs {

  // ----- The textbook recurrence -----

  function Max(x: nat, y: nat): nat {
    if x < y then y else x
  }

  /** Longest-common-subsequence length by the recurrence on last elements. */
  function LcsLength(a: seq<nat>, b: seq<nat>): nat
    decreases |a| + |b|
  {
    if a == [] || b == [] then 0
    else if a[|a| - 1] == b[|b| - 1] then 1 + LcsLength(a[..|a| - 1], b[..|b| - 1])
    else Max(LcsLength(a[..|a| - 1], b), LcsLength(a, b[..|b| - 1]))
  }

  // ----- The recurrence is the maximum over all common subsequences -----

  /** s can be obtained from a by deleting elements. */
  predicate IsSubsequence(s: seq<nat>, a: seq<nat>) {
    if s == [] then true
    else if a == [] then false
    else (s[|s| - 1] == a[|a| - 1] && IsSubsequence(s[..|s| - 1], a[..|a| - 1]))
         || IsSubsequence(s, a[..|a| - 1])
  }

  lemma {:induction false} SubsequenceOfDroppedLast(s: seq<nat>, a: seq<nat>)
    requires s != [] && IsSubsequence(s, a)
    ensures a != [] && IsSubsequence(s[..|s| - 1], a[..|a| - 1])
  {
    if !(s[|s| - 1] == a[|a| - 1] && IsSubsequence(s[..|s| - 1], a[..|a| - 1])) {
      SubsequenceOfDroppedLast(s, a[..|a| - 1]);
      assert IsSubsequence(s[..|s| - 1], a[..|a| - 1][..|a| - 2]);
    }
  }

  /** Some common subsequence has the length the recurrence gives. */
  lemma {:induction false} LcsIsAchieved(a: seq<nat>, b: seq<nat>) returns (s: seq<nat>)
    ensures IsSubsequence(s, a) && IsSubsequence(s, b)
    ensures |s| == LcsLength(a, b)
    decreases |a| + |b|
  {
    if a == [] || b == [] {
      s := [];
    } else if a[|a| - 1] == b[|b| - 1] {
      var s' := LcsIsAchieved(a[..|a| - 1], b[..|b| - 1]);
      s := s' + [a[|a| - 1]];
      assert s[..|s| - 1] == s';
    } else if LcsLength(a[..|a| - 1], b) < LcsLength(a, b[..|b| - 1]) {
      s := LcsIsAchieved(a, b[..|b| - 1]);
    } else {
      s := LcsIsAchieved(a[..|a| - 1], b);
    }
  }

  /** No common subsequence is longer than the recurrence gives. */
  lemma {:induction false} LcsIsUpperBound(s: seq<nat>, a: seq<nat>, b: seq<nat>)
    requires IsSubsequence(s, a) && IsSubsequence(s, b)
    ensures |s| <= LcsLength(a, b)
    decreases |a| + |b|
  {
    if s != [] {
      var a', b' := a[..|a| - 1], b[..|b| - 1];
      if a[|a| - 1] == b[|b| - 1] {
        SubsequenceOfDroppedLast(s, a);
        SubsequenceOfDroppedLast(s, b);
        LcsIsUpperBound(s[..|s| - 1], a', b');
      } else if IsSubsequence(s, a') {
        LcsIsUpperBound(s, a', b);
      } else {
        LcsIsUpperBound(s, a, b');
      }
    }
  }

  // ----- Trimming -----

  lemma {:induction false} HeadAlone(c: nat, a: seq<nat>)
    ensures LcsLength([c] + a, [c]) == 1 && LcsLength([c], [c] + a) == 1
  {
    var ca := [c] + a;
    if a != [] {
      assert ca[..|ca| - 1] == [c] + a[..|a| - 1];
      HeadAlone(c, a[..|a| - 1]);
    } else {
      assert ca == [c];
    }
  }

  lemma {:induction false} SharedHead(c: nat, a: seq<nat>, b: seq<nat>)
    ensures LcsLength([c] + a, [c] + b) == 1 + LcsLength(a, b)
    decreases |a| + |b|
  {
    if a == [] {
      assert [c] + a == [c];
      HeadAlone(c, b);
    } else if b == [] {
      assert [c] + b == [c];
      HeadAlone(c, a);
    } else {
      var a', b' := a[..|a| - 1], b[..|b| - 1];
      assert ([c] + a)[..|a|] == [c] + a';
      assert ([c] + b)[..|b|] == [c] + b';
      if a[|a| - 1] == b[|b| - 1] {
        SharedHead(c, a', b');
      } else {
        SharedHead(c, a', b);
        SharedHead(c, a, b');
      }
    }
  }

  /** A common prefix may be cut off and counted. */
  lemma {:induction false} SharedPrefix(p: seq<nat>, a: seq<nat>, b: seq<nat>)
    ensures LcsLength(p + a, p + b) == |p| + LcsLength(a, b)
  {
    if p == [] {
      assert p + a == a && p + b == b;
    } else {
      SharedPrefix(p[1..], a, b);
      SharedHead(p[0], p[1..] + a, p[1..] + b);
      assert p + a == [p[0]] + (p[1..] + a);
      assert p + b == [p[0]] + (p[1..] + b);
    }
  }

  /** A common suffix may be cut off and counted. */
  lemma {:induction false} SharedSuffix(a: seq<nat>, b: seq<nat>, s: seq<nat>)
    ensures LcsLength(a + s, b + s) == |s| + LcsLength(a, b)
  {
    if s == [] {
      assert a + s == a && b + s == b;
    } else {
      var s' := s[..|s| - 1];
      assert (a + s)[..|a + s| - 1] == a + s';
      assert (b + s)[..|b + s| - 1] == b + s';
      SharedSuffix(a, b, s');
    }
  }

  // ----- One column of the recurrence, revealed one matching position at a time -----

  /** LcsLength of the first t target elements against b. */
  function Row(a: seq<nat>, b: seq<nat>, t: nat): nat
    requires t <= |a|
  {
    LcsLength(a[..t], b)
  }

  /** The row for b + [c] in which only matches of c at target positions >= q are used. */
  function PartialRow(a: seq<nat>, b: seq<nat>, c: nat, q: int, t: nat): nat
    requires t <= |a|
    decreases t
  {
    if t == 0 then 0
    else if q <= t - 1 && a[t - 1] == c then Row(a, b, t - 1) + 1
    else Max(PartialRow(a, b, c, q, t - 1), Row(a, b, t))
  }

  lemma {:induction false} RowSteps(a: seq<nat>, b: seq<nat>, t: nat)
    requires t < |a|
    ensures Row(a, b, t) <= Row(a, b, t + 1) <= Row(a, b, t) + 1
    decreases t + |b|, 1
  {
    assert a[..t + 1][..t] == a[..t];
    if b != [] {
      var b' := b[..|b| - 1];
      if t > 0 {
        assert a[..t][..t - 1] == a[..t - 1];
        RowSteps(a, b, t - 1);
      }
      RowSteps(a, b', t);
      RowGrows(a, b, t);
    }
  }

  lemma {:induction false} RowGrows(a: seq<nat>, b: seq<nat>, t: nat)
    requires t <= |a| && b != []
    ensures Row(a, b[..|b| - 1], t) <= Row(a, b, t) <= Row(a, b[..|b| - 1], t) + 1
    decreases t + |b|, 0
  {
    var b' := b[..|b| - 1];
    if t > 0 {
      assert a[..t][..t - 1] == a[..t - 1];
      RowGrows(a, b, t - 1);
      if b' != [] {
        RowGrows(a, b', t - 1);
      }
      RowSteps(a, b', t - 1);
    }
  }

  lemma {:induction false} RowIsMonotone(a: seq<nat>, b: seq<nat>, s: nat, t: nat)
    requires s <= t <= |a|
    ensures Row(a, b, s) <= Row(a, b, t)
    decreases t - s
  {
    if s < t {
      RowIsMonotone(a, b, s, t - 1);
      RowSteps(a, b, t - 1);
    }
  }

  lemma {:induction false} PartialRowAllMatches(a: seq<nat>, b: seq<nat>, c: nat, t: nat)
    requires t <= |a|
    ensures PartialRow(a, b, c, 0, t) == Row(a, b + [c], t)
  {
    assert (b + [c])[..|b|] == b;
    if t > 0 {
      assert a[..t][..t - 1] == a[..t - 1];
      PartialRowAllMatches(a, b, c, t - 1);
    }
  }

  lemma {:induction false} PartialRowNoMatches(a: seq<nat>, b: seq<nat>, c: nat, q: int, t: nat)
    requires t <= |a|
    requires forall p :: q <= p < t && 0 <= p ==> a[p] != c
    ensures PartialRow(a, b, c, q, t) == Row(a, b, t)
  {
    if t > 0 {
      PartialRowNoMatches(a, b, c, q, t - 1);
      RowSteps(a, b, t - 1);
    }
  }

  lemma {:induction false} PartialRowSkips(a: seq<nat>, b: seq<nat>, c: nat, q: int, q': int, t: nat)
    requires t <= |a|
    requires q <= q'
    requires forall p :: q <= p < q' && 0 <= p < |a| ==> a[p] != c
    ensures PartialRow(a, b, c, q, t) == PartialRow(a, b, c, q', t)
  {
    if t > 0 {
      PartialRowSkips(a, b, c, q, q', t - 1);
    }
  }

  /** Revealing one more match, at position p, raises the row to Row(p) + 1 right of p. */
  lemma {:induction false} PartialRowReveal(a: seq<nat>, b: seq<nat>, c: nat, p: nat, t: nat)
    requires p < |a| && a[p] == c && t <= |a|
    ensures PartialRow(a, b, c, p, t) ==
            if t <= p then PartialRow(a, b, c, p + 1, t)
            else Max(PartialRow(a, b, c, p + 1, t), Row(a, b, p) + 1)
    ensures t <= p ==> PartialRow(a, b, c, p + 1, t) == Row(a, b, t)
  {
    if t <= p {
      PartialRowNoMatches(a, b, c, p + 1, t);
      PartialRowNoMatches(a, b, c, p, t);
    } else {
      PartialRowReveal(a, b, c, p, t - 1);
      RowIsMonotone(a, b, p, t - 1);
      RowSteps(a, b, t - 1);
    }
  }

  // ----- The patience array -----

  ghost predicate StrictlyIncreasing(lis: seq<int>) {
    forall i, j :: 0 <= i < j < |lis| ==> lis[i] < lis[j]
  }

  /** Entry m is the first entry of lis at or right of t. */
  ghost predicate SplitsAt(lis: seq<int>, m: nat, t: nat) {
    && m <= |lis|
    && (m > 0 ==> lis[m - 1] < t)
    && (m < |lis| ==> t <= lis[m])
  }

  /** lis lists the jump points of a row: exactly row(t) of its entries are below t.  With the rows
      stepping by at most one, lis[k] is the least target position that ends a common subsequence of
      length k + 1. */
  ghost predicate Represents(lis: seq<int>, a: seq<nat>, b: seq<nat>, c: nat, q: int) {
    && StrictlyIncreasing(lis)
    && (forall k :: 0 <= k < |lis| ==> 0 <= lis[k] < |a|)
    && forall t: nat {:trigger PartialRow(a, b, c, q, t)} :: t <= |a| ==>
         SplitsAt(lis, PartialRow(a, b, c, q, t), t)
  }

  /** The same, for a finished row. */
  ghost predicate IsJumpList(lis: seq<int>, a: seq<nat>, b: seq<nat>) {
    && StrictlyIncreasing(lis)
    && (forall k :: 0 <= k < |lis| ==> 0 <= lis[k] < |a|)
    && forall t: nat {:trigger Row(a, b, t)} :: t <= |a| ==>
         SplitsAt(lis, Row(a, b, t), t)
  }

  /** lis[k] is the least target position ending a common subsequence of length k + 1, and there is
      no common subsequence longer than lis. */
  lemma JumpListIsLeast(lis: seq<int>, a: seq<nat>, b: seq<nat>, k: nat, t: nat)
    requires IsJumpList(lis, a, b) && t < |a|
    ensures k < |lis| ==> (LcsLength(a[..t + 1], b) >= k + 1 <==> lis[k] <= t)
    ensures k >= |lis| ==> LcsLength(a[..t + 1], b) < k + 1
  {
    assert Row(a, b, t + 1) == LcsLength(a[..t + 1], b);
    var m := Row(a, b, t + 1);
    if k < |lis| {
      if m >= k + 1 {
        assert lis[k] <= lis[m - 1];
      } else {
        assert lis[m] <= lis[k];
      }
    }
  }

  /** First position whose value is not below pos, as std::lower_bound on a sorted vector. */
  method LowerBound(lis: seq<int>, pos: int) returns (k: nat)
    requires StrictlyIncreasing(lis)
    ensures k <= |lis|
    ensures forall i :: 0 <= i < k ==> lis[i] < pos
    ensures forall i :: k <= i < |lis| ==> pos <= lis[i]
  {
    var lo, hi := 0, |lis|;
    while lo < hi
      invariant 0 <= lo <= hi <= |lis|
      invariant forall i :: 0 <= i < lo ==> lis[i] < pos
      invariant forall i :: hi <= i < |lis| ==> pos <= lis[i]
    {
      var mid := (lo + hi) / 2;
      if lis[mid] < pos {
        lo := mid + 1;
      } else {
        hi := mid;
      }
    }
    k := lo;
  }

  function Placed(lis: seq<int>, k: nat, p: int): seq<int>
    requires k <= |lis|
  {
    if k == |lis| then lis + [p] else lis[k := p]
  }

  lemma PlacedIncreases(lis: seq<int>, k: nat, p: int)
    requires StrictlyIncreasing(lis) && k <= |lis|
    requires forall i :: 0 <= i < k ==> lis[i] < p
    requires forall i :: k <= i < |lis| ==> p <= lis[i]
    ensures StrictlyIncreasing(Placed(lis, k, p))
  {
    var lis' := Placed(lis, k, p);
    forall i, j | 0 <= i < j < |lis'| ensures lis'[i] < lis'[j] {
      if i == k {
        assert lis[k] < lis[j];
      }
    }
  }

  lemma PlacedSplits(lis: seq<int>, k: nat, p: nat, n: nat, t: nat)
    requires StrictlyIncreasing(lis) && k <= |lis| && k <= n
    requires p < t
    requires SplitsAt(lis, n, t)
    ensures SplitsAt(Placed(lis, k, p), Max(n, k + 1), t)
  {
  }

  lemma PlaceStep(lis: seq<int>, a: seq<nat>, b: seq<nat>, c: nat, p: nat, k: nat)
    requires Represents(lis, a, b, c, p + 1)
    requires p < |a| && a[p] == c
    requires k <= |lis|
    requires forall i :: 0 <= i < k ==> lis[i] < p
    requires forall i :: k <= i < |lis| ==> p <= lis[i]
    ensures Represents(Placed(lis, k, p), a, b, c, p)
  {
    PlacedIncreases(lis, k, p);
    PartialRowReveal(a, b, c, p, p);
    assert SplitsAt(lis, PartialRow(a, b, c, p + 1, p), p);
    assert Row(a, b, p) == k;
    forall t: nat | t <= |a|
      ensures SplitsAt(Placed(lis, k, p), PartialRow(a, b, c, p, t), t)
    {
      PlaceStepAt(lis, a, b, c, p, k, t);
    }
  }

  lemma PlaceStepAt(lis: seq<int>, a: seq<nat>, b: seq<nat>, c: nat, p: nat, k: nat, t: nat)
    requires Represents(lis, a, b, c, p + 1)
    requires p < |a| && a[p] == c && t <= |a|
    requires k <= |lis| && Row(a, b, p) == k
    requires k < |lis| ==> p <= lis[k]
    ensures SplitsAt(Placed(lis, k, p), PartialRow(a, b, c, p, t), t)
  {
    PartialRowReveal(a, b, c, p, t);
    var n := PartialRow(a, b, c, p + 1, t);
    assert SplitsAt(lis, n, t);
    if t <= p {
      RowIsMonotone(a, b, t, p);
    } else {
      PartialRowReveal(a, b, c, p, p);
      PartialRowIsMonotone(a, b, c, p + 1, p, t);
      PlacedSplits(lis, k, p, n, t);
    }
  }

  lemma {:induction false} PartialRowIsMonotone(a: seq<nat>, b: seq<nat>, c: nat, q: int, s: nat, t: nat)
    requires s <= t <= |a|
    ensures PartialRow(a, b, c, q, s) <= PartialRow(a, b, c, q, t)
  {
    if s < t {
      PartialRowIsMonotone(a, b, c, q, s, t - 1);
      PartialRowBound(a, b, c, q, t - 1);
    }
  }

  lemma {:induction false} PartialRowBound(a: seq<nat>, b: seq<nat>, c: nat, q: int, t: nat)
    requires t <= |a|
    ensures PartialRow(a, b, c, q, t) <= Row(a, b, t) + 1
  {
    if t > 0 {
      PartialRowBound(a, b, c, q, t - 1);
      RowSteps(a, b, t - 1);
    }
  }

  /** positions[op] lists, in increasing order, every index of op. */
  ghost predicate PositionsIndex(positions: map<nat, seq<int>>, target: seq<nat>) {
    && (forall op {:trigger positions[op]} :: op in positions ==>
          && StrictlyIncreasing(positions[op])
          && forall i :: 0 <= i < |positions[op]| ==>
               0 <= positions[op][i] < |target| && target[positions[op][i]] == op)
    && forall p :: 0 <= p < |target| ==>
         target[p] in positions && p in positions[target[p]]
  }

  lemma StartColumn(lis: seq<int>, a: seq<nat>, b: seq<nat>, c: nat)
    requires IsJumpList(lis, a, b)
    ensures Represents(lis, a, b, c, |a|)
  {
    forall t: nat | t <= |a| ensures PartialRow(a, b, c, |a|, t) == Row(a, b, t) {
      PartialRowNoMatches(a, b, c, |a|, t);
    }
  }

  lemma SkipColumn(lis: seq<int>, a: seq<nat>, b: seq<nat>, c: nat, q: nat, q': nat)
    requires Represents(lis, a, b, c, q')
    requires q <= q' <= |a|
    requires forall p :: q <= p < q' ==> a[p] != c
    ensures Represents(lis, a, b, c, q)
  {
    forall t: nat | t <= |a| ensures PartialRow(a, b, c, q, t) == PartialRow(a, b, c, q', t) {
      PartialRowSkips(a, b, c, q, q', t);
    }
  }

  lemma FinishColumn(lis: seq<int>, a: seq<nat>, b: seq<nat>, c: nat, q: nat)
    requires Represents(lis, a, b, c, q)
    requires q <= |a| && forall p :: 0 <= p < q ==> a[p] != c
    ensures IsJumpList(lis, a, b + [c])
  {
    forall t: nat | t <= |a| ensures PartialRow(a, b, c, q, t) == Row(a, b + [c], t) {
      PartialRowSkips(a, b, c, 0, q, t);
      PartialRowAllMatches(a, b, c, t);
    }
  }

  lemma JumpListLength(lis: seq<int>, a: seq<nat>, b: seq<nat>)
    requires IsJumpList(lis, a, b)
    ensures |lis| == LcsLength(a, b)
  {
    assert a[..|a|] == a;
    assert Row(a, b, |a|) == LcsLength(a, b);
  }

  method IndexPositions(target: seq<nat>) returns (positions: map<nat, seq<int>>)
    ensures PositionsIndex(positions, target)
  {
    positions := map[];
    for i := 0 to |target|
      invariant PositionsIndex(positions, target[..i])
    {
      var op := target[i];
      var earlier := if op in positions then positions[op] else [];
      positions := positions[op := earlier + [i]];
      assert target[..i + 1] == target[..i] + [op];
      IndexedOneMore(positions, earlier, target[..i], op);
    }
    assert target[..|target|] == target;
  }

  lemma IndexedOneMore(positions: map<nat, seq<int>>, earlier: seq<int>, target: seq<nat>, op: nat)
    requires op in positions && positions[op] == earlier + [|target|]
    requires PositionsIndex(positions[op := earlier], target)
    ensures PositionsIndex(positions, target + [op])
  {
    var before := positions[op := earlier];
    assert before[op] == earlier;
    forall o | o in positions
      ensures StrictlyIncreasing(positions[o])
      ensures forall i :: 0 <= i < |positions[o]| ==>
                0 <= positions[o][i] < |target| + 1 && (target + [op])[positions[o][i]] == o
    {
      assert before[o] == if o == op then earlier else positions[o];
    }
    forall p | 0 <= p < |target| + 1
      ensures (target + [op])[p] in positions && p in positions[(target + [op])[p]]
    {
      if p < |target| {
        assert target[p] in before && p in before[target[p]];
      }
    }
  }

  /** Folds the matches of one candidate opcode into the patience array, last match first. */
  method PlaceMatches(lis0: seq<int>, positions: seq<int>, ghost a: seq<nat>, ghost b: seq<nat>, ghost op: nat)
    returns (lis: seq<int>)
    requires IsJumpList(lis0, a, b)
    requires StrictlyIncreasing(positions)
    requires forall i :: 0 <= i < |positions| ==> 0 <= positions[i] < |a| && a[positions[i]] == op
    requires forall p :: 0 <= p < |a| && a[p] == op ==> p in positions
    ensures IsJumpList(lis, a, b + [op])
  {
    lis := lis0;
    ghost var q := |a|;
    StartColumn(lis, a, b, op);
    var r := |positions|;
    while r > 0
      invariant 0 <= r <= |positions|
      invariant q == if r < |positions| then positions[r] else |a|
      invariant Represents(lis, a, b, op, q)
    {
      r := r - 1;
      var pos := positions[r];
      NoMatchBetween(positions, a, op, r, q);
      SkipColumn(lis, a, b, op, pos + 1, q);
      var k := LowerBound(lis, pos);
      PlaceStep(lis, a, b, op, pos, k);
      if k == |lis| {
        lis := lis + [pos];
      } else {
        lis := lis[k := pos];
      }
      q := pos;
    }
    NoMatchBefore(positions, a, op);
    FinishColumn(lis, a, b, op, q);
  }

  lemma NoMatchBetween(positions: seq<int>, a: seq<nat>, op: nat, r: nat, q: int)
    requires StrictlyIncreasing(positions) && r < |positions|
    requires forall p :: 0 <= p < |a| && a[p] == op ==> p in positions
    requires q == if r + 1 < |positions| then positions[r + 1] else |a|
    ensures forall p :: 0 <= p < |a| && a[p] == op ==> p <= positions[r] || q <= p
  {
    forall p | 0 <= p < |a| && a[p] == op ensures p <= positions[r] || q <= p {
      var i :| 0 <= i < |positions| && positions[i] == p;
      if i < r {
        assert positions[i] < positions[r];
      } else if r + 1 < i {
        assert positions[r + 1] < positions[i];
      }
    }
  }

  lemma NoMatchBefore(positions: seq<int>, a: seq<nat>, op: nat)
    requires StrictlyIncreasing(positions)
    requires forall p :: 0 <= p < |a| && a[p] == op ==> p in positions
    ensures forall p :: 0 <= p < |a| && (positions != [] ==> p < positions[0]) ==> a[p] != op
  {
  }

  /** The patience loop over the trimmed middle sections. */
  method PatienceLength(target: seq<nat>, cand: seq<nat>) returns (length: nat)
    ensures length == LcsLength(target, cand)
  {
    var targetPositions := IndexPositions(target);
    var lis: seq<int> := [];
    EmptyJumpList(target);
    for j := 0 to |cand|
      invariant IsJumpList(lis, target, cand[..j])
    {
      var op := cand[j];
      assert cand[..j + 1] == cand[..j] + [op];
      if op in targetPositions {
        MatchesOfIndexed(targetPositions, target, op);
        lis := PlaceMatches(lis, targetPositions[op], target, cand[..j], op);
      } else {
        StartColumn(lis, target, cand[..j], op);
        FinishColumn(lis, target, cand[..j], op, |target|);
      }
    }
    assert cand[..|cand|] == cand;
    length := |lis|;
    JumpListLength(lis, target, cand);
  }

  lemma MatchesOfIndexed(positions: map<nat, seq<int>>, target: seq<nat>, op: nat)
    requires PositionsIndex(positions, target) && op in positions
    ensures forall p :: 0 <= p < |target| && target[p] == op ==> p in positions[op]
  {
  }

  lemma EmptyJumpList(a: seq<nat>)
    ensures IsJumpList([], a, [])
  {
    forall t: nat | t <= |a| ensures Row(a, [], t) == 0 {
    }
  }

  /** Cutting off a common prefix and a common suffix of given lengths. */
  lemma TrimmedLcs(a: seq<nat>, b: seq<nat>, pre: nat, suf: nat)
    requires pre + suf <= |a| && pre + suf <= |b|
    requires a[..pre] == b[..pre]
    requires a[|a| - suf..] == b[|b| - suf..]
    ensures LcsLength(a, b) == pre + LcsLength(a[pre..|a| - suf], b[pre..|b| - suf]) + suf
  {
    var midA, midB := a[pre..|a| - suf], b[pre..|b| - suf];
    var s := a[|a| - suf..];
    assert a == a[..pre] + (midA + s);
    assert b == a[..pre] + (midB + s);
    SharedPrefix(a[..pre], midA + s, midB + s);
    SharedSuffix(midA, midB, s);
  }

  /** Canonical opcode sequences in, number of opcodes they share in order out. */
  method ComputeCanonicalSequenceLcs(targetOps: seq<nat>, candidateOps: seq<nat>) returns (length: nat)
    ensures length == LcsLength(targetOps, candidateOps)
  {
    var targetLen, candLen := |targetOps|, |candidateOps|;
    if targetLen == 0 || candLen == 0 {
      return 0;
    }
    var prefixLen := 0;
    var minLen := if targetLen < candLen then targetLen else candLen;
    while prefixLen < minLen && targetOps[prefixLen] == candidateOps[prefixLen]
      invariant 0 <= prefixLen <= minLen
      invariant targetOps[..prefixLen] == candidateOps[..prefixLen]
    {
      prefixLen := prefixLen + 1;
    }
    if prefixLen == targetLen || prefixLen == candLen {
      TrimmedLcs(targetOps, candidateOps, prefixLen, 0);
      return prefixLen;
    }
    var suffixLen := 0;
    while suffixLen < targetLen - prefixLen && suffixLen < candLen - prefixLen &&
          targetOps[targetLen - 1 - suffixLen] == candidateOps[candLen - 1 - suffixLen]
      invariant 0 <= suffixLen <= targetLen - prefixLen
      invariant suffixLen <= candLen - prefixLen
      invariant targetOps[targetLen - suffixLen..] == candidateOps[candLen - suffixLen..]
    {
      suffixLen := suffixLen + 1;
    }
    TrimmedLcs(targetOps, candidateOps, prefixLen, suffixLen);
    var midTarget := targetOps[prefixLen..targetLen - suffixLen];
    var midCand := candidateOps[prefixLen..candLen - suffixLen];
    var m := PatienceLength(midTarget, midCand);
    length := prefixLen + m + suffixLen;
  }
}
