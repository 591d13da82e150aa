/** CompoundStatement::AddStatement of core/c_ast.cc: leaving out what follows a jump changes no
    behaviour, unless a mark is lost. */
module CPruning {
  import opened CAst
  import opened CSemantics
  import opened Wrappers

  /** The statement never continues with the next one. */
  predicate TransfersControl(st: Stmt) { st.Return? || st.BreakStatement? || st.ContinueStatement? || st.Goto? }

  predicate IsJumpTarget(st: Stmt) { st.Label? || st.Case? }

  /** A statement that AddStatement leaves out. */
  predicate IsDead(block: seq<Stmt>, st: Stmt) {
    block != [] && TransfersControl(block[|block| - 1]) && !IsJumpTarget(st)
  }

  function Added(block: seq<Stmt>, st: Stmt): seq<Stmt> {
    if IsDead(block, st) then block else block + [st]
  }

  /** The block that a sequence of AddStatement calls builds. */
  function AddedAll(block: seq<Stmt>, stmts: seq<Stmt>): seq<Stmt>
    decreases |stmts|
  {
    if stmts == [] then block else AddedAll(Added(block, stmts[0]), stmts[1..])
  }

  /** No statement that is left out holds a label or a case label. */
  predicate DropsNoMark(block: seq<Stmt>, stmts: seq<Stmt>)
    decreases |stmts|
  {
    stmts == [] ||
    ((IsDead(block, stmts[0]) ==> Marks(stmts[0]) == {}) && DropsNoMark(Added(block, stmts[0]), stmts[1..]))
  }

  class CompoundStatement {
    var statements: seq<Stmt>

    constructor ()
      ensures statements == []
    {
      statements := [];
    }

    method AddStatement(st: Stmt)
      modifies this
      ensures statements == Added(old(statements), st)
    {
      if statements != [] {
        var last := statements[|statements| - 1];
        if last.Return? || last.BreakStatement? || last.ContinueStatement? || last.Goto? {
          if !st.Label? && !st.Case? {
            return;
          }
        }
      }
      statements := statements + [st];
    }

    method AddStatements(stmts: seq<Stmt>)
      modifies this
      ensures statements == AddedAll(old(statements), stmts)
    {
      assert stmts[0..] == stmts;
      for i := 0 to |stmts|
        invariant AddedAll(old(statements), stmts) == AddedAll(statements, stmts[i..])
      {
        assert stmts[i..][1..] == stmts[i + 1..];
        AddStatement(stmts[i]);
      }
    }
  }

  /** Control never goes from a jump to the statement after it. */
  lemma TransferNeverFallsThrough(m: Machine, fuel: nat, st: Stmt, entry: Option<Mark>, s: Store)
    requires TransfersControl(st)
    ensures var r := Exec(m, fuel, st, entry, s); r.Done? && !r.outcome.Normal?
    ensures Marks(st) == {}
  {
    hide Eval;
  }

  /** A markless statement right after a jump is never reached. */
  lemma {:induction false} DropDead(
    m: Machine, fuel: nat, before: seq<Stmt>, dead: Stmt, after: seq<Stmt>, entry: Option<Mark>, s: Store)
    requires before != [] && TransfersControl(before[|before| - 1]) && Marks(dead) == {}
    ensures ExecAll(m, fuel, before + [dead] + after, entry, s) == ExecAll(m, fuel, before + after, entry, s)
    decreases |before|
  {
    hide TransfersControl, Marks, Exec;
    var with', without := before + [dead] + after, before + after;
    assert with'[0] == before[0] && without[0] == before[0];
    var rest := before[1..];
    assert with'[1..] == rest + [dead] + after && without[1..] == rest + after;
    if rest == [] {
      TransferNeverFallsThrough(m, fuel, before[0], entry, s);
      assert rest + [dead] + after == [dead] + after && rest + after == after;
      assert ([dead] + after)[1..] == after;
    } else {
      assert rest[|rest| - 1] == before[|before| - 1];
      if entry.Some? && entry.value !in Marks(before[0]) {
        DropDead(m, fuel, rest, dead, after, entry, s);
      } else {
        var r := Exec(m, fuel, before[0], entry, s);
        if r.Done? && r.outcome.Normal? {
          DropDead(m, fuel, rest, dead, after, None, r.store);
        }
      }
    }
  }

  /** A block built with AddStatement behaves, from any entry, like the list with nothing left out, when
      what is left out holds no label and no case label. */
  lemma {:induction false} PruningKeepsBehaviour(
    m: Machine, fuel: nat, block: seq<Stmt>, stmts: seq<Stmt>, entry: Option<Mark>, s: Store)
    requires DropsNoMark(block, stmts)
    ensures ExecAll(m, fuel, AddedAll(block, stmts), entry, s) == ExecAll(m, fuel, block + stmts, entry, s)
    decreases |stmts|
  {
    hide Exec, Marks, TransfersControl, IsJumpTarget, ExecAll;
    if stmts == [] {
      assert block + stmts == block;
    } else {
      PruningKeepsBehaviour(m, fuel, Added(block, stmts[0]), stmts[1..], entry, s);
      assert block + stmts == block + [stmts[0]] + stmts[1..];
      if IsDead(block, stmts[0]) {
        DropDead(m, fuel, block, stmts[0], stmts[1..], entry, s);
      }
    }
  }

  lemma {:induction false} MarksConcat(a: seq<Stmt>, b: seq<Stmt>)
    ensures MarksOfAll(a + b) == MarksOfAll(a) + MarksOfAll(b)
  {
    hide Marks;
    if a == [] {
      assert a + b == b;
    } else {
      MarksConcat(a[1..], b);
      assert (a + b)[0] == a[0] && (a + b)[1..] == a[1..] + b;
    }
  }

  lemma {:induction false} PruningKeepsMarks(block: seq<Stmt>, stmts: seq<Stmt>)
    requires DropsNoMark(block, stmts)
    ensures MarksOfAll(AddedAll(block, stmts)) == MarksOfAll(block + stmts)
    decreases |stmts|
  {
    hide Marks, TransfersControl, IsJumpTarget;
    if stmts == [] {
      assert block + stmts == block;
    } else {
      PruningKeepsMarks(Added(block, stmts[0]), stmts[1..]);
      MarksConcat(Added(block, stmts[0]), stmts[1..]);
      MarksConcat(block, stmts);
      MarksConcat(block, [stmts[0]]);
      assert [stmts[0]][1..] == [];
    }
  }

  /** The same for a whole function body, through its gotos. */
  lemma {:induction false} PrunedFunction(
    m: Machine, fuel: nat, stmts: seq<Stmt>, entry: Option<Mark>, s: Store)
    requires DropsNoMark([], stmts)
    ensures ExecFunction(m, fuel, AddedAll([], stmts), entry, s) == ExecFunction(m, fuel, stmts, entry, s)
    decreases fuel
  {
    hide DropsNoMark, ExecAll, MarksOfAll, AddedAll;
    assert [] + stmts == stmts;
    PruningKeepsBehaviour(m, fuel, [], stmts, entry, s);
    PruningKeepsMarks([], stmts);
    var r := ExecAll(m, fuel, stmts, entry, s);
    if r.Done? && r.outcome.Jumping? && NameMark(r.outcome.goal) in MarksOfAll(stmts) && fuel > 0 {
      PrunedFunction(m, fuel - 1, stmts, Some(NameMark(r.outcome.goal)), r.store);
    }
  }

  // ----- A mark that is there is found -----

  predicate Found(r: Run) { r.Done? ==> !r.outcome.Missing? }

  /** A statement entered at its start, or at a mark it holds, never misses the mark. */
  lemma {:induction false} EnteredIsFound(m: Machine, fuel: nat, st: Stmt, entry: Option<Mark>, s: Store)
    requires Enters(st, entry)
    ensures Found(Exec(m, fuel, st, entry, s))
    decreases fuel, st, 2
  {
    hide Eval, ExecAll, ExecCases, AfterRound, AfterForRound, Truthy;
    match st
    case Compound(statements) =>
      AllEnteredIsFound(m, fuel, statements, entry, s);
    case If(condition, thenBranch, elseBranch) =>
      IfEnteredIsFound(m, fuel, st, entry, s);
    case While(condition, body) =>
      var c := Eval(m, condition, s);
      ExecWhile(m, fuel, st, entry, s);
      var t := if entry.Some? then s else c.store;
      EnteredIsFound(m, fuel, body, entry, t);
      LaterRoundsFound(m, fuel, st, Exec(m, fuel, body, entry, t));
    case DoWhile(body, condition) =>
      ExecDoWhile(m, fuel, st, entry, s);
      EnteredIsFound(m, fuel, body, entry, s);
      var r := Exec(m, fuel, body, entry, s);
      if r.Done? {
        LaterRoundsFound(m, fuel, st, Done(Normal, Eval(m, condition, r.store).store));
      }
    case For(_, _, _, _) =>
      ForEnteredIsFound(m, fuel, st, entry, s);
    case Switch(condition, cases) =>
      ExecSwitch(m, fuel, st, entry, s);
      var c := Eval(m, condition, s);
      var k := ChosenCase(cases, AsInt(c.value));
      if entry.Some? {
        CasesEnteredIsFound(m, fuel, cases, entry, s);
      } else if k.Some? {
        CasesEnteredIsFound(m, fuel, cases[k.value..], None, c.store);
      }
    case _ =>
  }

  lemma {:induction false} IfEnteredIsFound(m: Machine, fuel: nat, st: Stmt, entry: Option<Mark>, s: Store)
    requires st.If? && Enters(st, entry)
    ensures Found(Exec(m, fuel, st, entry, s))
    decreases fuel, st, 1
  {
    hide Eval, Exec, Truthy;
    var c := Eval(m, st.condition, s);
    if entry.Some? {
      ExecIfAt(m, fuel, st, entry, s);
      if entry.value in Marks(st.thenBranch) {
        EnteredIsFound(m, fuel, st.thenBranch, entry, s);
      } else {
        EnteredIsFound(m, fuel, st.elseBranch.value, entry, s);
      }
    } else {
      ExecIf(m, fuel, st, s);
      EnteredIsFound(m, fuel, st.thenBranch, None, c.store);
      if st.elseBranch.Some? {
        EnteredIsFound(m, fuel, st.elseBranch.value, None, c.store);
      }
    }
  }

  lemma {:induction false} ForEnteredIsFound(m: Machine, fuel: nat, st: Stmt, entry: Option<Mark>, s: Store)
    requires st.For? && Enters(st, entry)
    ensures Found(Exec(m, fuel, st, entry, s))
    decreases fuel, st, 1
  {
    hide EvalOption, Exec, Truthy, AfterForRound;
    if entry.Some? && (st.init.None? || entry.value !in Marks(st.init.value)) {
      ExecForAt(m, fuel, st, entry, s);
      EnteredIsFound(m, fuel, st.loopBody, entry, s);
      LaterForRoundsFound(m, fuel, st, Exec(m, fuel, st.loopBody, entry, s));
    } else if st.init.Some? {
      ExecForStart(m, fuel, st, entry, s);
      EnteredIsFound(m, fuel, st.init.value, entry, s);
      var r := Exec(m, fuel, st.init.value, entry, s);
      if r.Done? && r.outcome.Normal? && fuel > 0 {
        EnteredIsFound(m, fuel - 1, For(None, st.forCondition, st.step, st.loopBody), None, r.store);
      }
    } else {
      ExecForRound(m, fuel, st, s);
      var c := EvalOption(m, st.forCondition, s);
      EnteredIsFound(m, fuel, st.loopBody, None, c.store);
      LaterForRoundsFound(m, fuel, st, Exec(m, fuel, st.loopBody, None, c.store));
    }
  }

  lemma {:induction false} LaterRoundsFound(m: Machine, fuel: nat, st: Stmt, r: Run)
    requires (st.While? || st.DoWhile?) && Found(r)
    ensures Found(AfterRound(m, fuel, st, r))
    decreases fuel, st, 0
  {
    hide Exec;
    if fuel > 0 && r.Done? {
      EnteredIsFound(m, fuel - 1, st, None, r.store);
    }
  }

  lemma {:induction false} LaterForRoundsFound(m: Machine, fuel: nat, st: Stmt, r: Run)
    requires st.For? && Found(r)
    ensures Found(AfterForRound(m, fuel, st, r))
    decreases fuel, st, 0
  {
    hide Exec, Eval;
    if fuel > 0 && r.Done? {
      var s := if st.step.Some? then Eval(m, st.step.value, r.store).store else r.store;
      EnteredIsFound(m, fuel - 1, For(None, st.forCondition, st.step, st.loopBody), None, s);
    }
  }

  lemma {:induction false} AllEnteredIsFound(m: Machine, fuel: nat, stmts: seq<Stmt>, entry: Option<Mark>, s: Store)
    requires entry.Some? ==> entry.value in MarksOfAll(stmts)
    ensures Found(ExecAll(m, fuel, stmts, entry, s))
    decreases fuel, stmts, 0
  {
    hide Exec, Marks;
    if stmts != [] {
      if entry.Some? && entry.value !in Marks(stmts[0]) {
        AllEnteredIsFound(m, fuel, stmts[1..], entry, s);
      } else {
        EnteredIsFound(m, fuel, stmts[0], entry, s);
        var r := Exec(m, fuel, stmts[0], entry, s);
        if r.Done? {
          AllEnteredIsFound(m, fuel, stmts[1..], None, r.store);
        }
      }
    }
  }

  lemma {:induction false} CasesEnteredIsFound(
    m: Machine, fuel: nat, cases: seq<SwitchCase>, entry: Option<Mark>, s: Store)
    requires entry.Some? ==> entry.value in MarksOfCases(cases)
    ensures Found(ExecCases(m, fuel, cases, entry, s))
    decreases fuel, cases, 0
  {
    hide ExecAll, MarksOfAll;
    if cases != [] {
      if entry.Some? && entry.value !in MarksOfAll(cases[0].body) {
        CasesEnteredIsFound(m, fuel, cases[1..], entry, s);
      } else {
        AllEnteredIsFound(m, fuel, cases[0].body, entry, s);
        var r := ExecAll(m, fuel, cases[0].body, entry, s);
        if r.Done? {
          CasesEnteredIsFound(m, fuel, cases[1..], None, r.store);
        }
      }
    }
  }

  lemma {:induction false} AbsentIsMissed(m: Machine, fuel: nat, stmts: seq<Stmt>, mark: Mark, s: Store)
    requires mark !in MarksOfAll(stmts)
    ensures ExecAll(m, fuel, stmts, Some(mark), s) == Done(Missing, s)
    decreases stmts
  {
    hide Exec, Marks;
    if stmts != [] {
      AbsentIsMissed(m, fuel, stmts[1..], mark, s);
    }
  }

  lemma {:induction false} FunctionEnteredIsFound(
    m: Machine, fuel: nat, body: seq<Stmt>, entry: Option<Mark>, s: Store)
    requires entry.Some? ==> entry.value in MarksOfAll(body)
    ensures Found(ExecFunction(m, fuel, body, entry, s))
    decreases fuel
  {
    hide ExecAll, MarksOfAll;
    AllEnteredIsFound(m, fuel, body, entry, s);
    var r := ExecAll(m, fuel, body, entry, s);
    if r.Done? && r.outcome.Jumping? && NameMark(r.outcome.goal) in MarksOfAll(body) && fuel > 0 {
      FunctionEnteredIsFound(m, fuel - 1, body, Some(NameMark(r.outcome.goal)), r.store);
    }
  }

  // ----- Exactly when nothing is lost -----

  /** The marks in what AddStatement leaves out. */
  function LeftOut(block: seq<Stmt>, stmts: seq<Stmt>): set<Mark>
    decreases |stmts|
  {
    if stmts == [] then {}
    else (if IsDead(block, stmts[0]) then Marks(stmts[0]) else {}) + LeftOut(Added(block, stmts[0]), stmts[1..])
  }

  lemma {:induction false} NoneLeftOut(block: seq<Stmt>, stmts: seq<Stmt>)
    ensures DropsNoMark(block, stmts) <==> LeftOut(block, stmts) == {}
    ensures LeftOut(block, stmts) <= MarksOfAll(stmts)
    decreases |stmts|
  {
    hide Marks, IsDead;
    if stmts != [] {
      NoneLeftOut(Added(block, stmts[0]), stmts[1..]);
    }
  }

  /** No mark is both left out and kept. */
  predicate LostForGood(stmts: seq<Stmt>) { LeftOut([], stmts) !! MarksOfAll(AddedAll([], stmts)) }

  /** No mark stands in two statements of the list, as C asks of the labels of a function and of the case
      labels of a switch. */
  ghost predicate DistinctMarks(stmts: seq<Stmt>) {
    forall i, j :: 0 <= i < j < |stmts| ==> Marks(stmts[i]) !! Marks(stmts[j])
  }

  lemma {:induction false} DistinctMarksAreLost(block: seq<Stmt>, stmts: seq<Stmt>)
    requires DistinctMarks(block + stmts)
    ensures LeftOut(block, stmts) !! MarksOfAll(AddedAll(block, stmts))
    decreases |stmts|
  {
    hide Marks, IsDead, DistinctMarks;
    if stmts != [] {
      var first, rest := stmts[0], stmts[1..];
      assert block + stmts == block + [first] + rest;
      if IsDead(block, first) {
        DistinctWithout(block, first, rest);
        forall mark | mark in Marks(first) ensures mark !in MarksOfAll(AddedAll(block, rest)) {
          DistinctFromOthers(block, first, rest, mark);
          AddedMarks(block, rest, mark);
        }
      }
      DistinctMarksAreLost(Added(block, first), rest);
    }
  }

  lemma DistinctIsLostForGood(stmts: seq<Stmt>)
    requires DistinctMarks(stmts)
    ensures LostForGood(stmts)
  {
    hide Marks, LeftOut, AddedAll, MarksOfAll, DistinctMarks;
    assert [] + stmts == stmts;
    DistinctMarksAreLost([], stmts);
  }

  lemma DistinctWithout(block: seq<Stmt>, first: Stmt, rest: seq<Stmt>)
    requires DistinctMarks(block + [first] + rest)
    ensures DistinctMarks(block + rest)
  {
    hide Marks;
    var all, fewer := block + [first] + rest, block + rest;
    forall i, j | 0 <= i < j < |fewer| ensures Marks(fewer[i]) !! Marks(fewer[j]) {
      var i', j' := if i < |block| then i else i + 1, if j < |block| then j else j + 1;
      assert fewer[i] == all[i'] && fewer[j] == all[j'];
    }
  }

  lemma DistinctFromOthers(block: seq<Stmt>, first: Stmt, rest: seq<Stmt>, mark: Mark)
    requires DistinctMarks(block + [first] + rest) && mark in Marks(first)
    ensures mark !in MarksOfAll(block) && mark !in MarksOfAll(rest)
  {
    hide Marks;
    var all, n := block + [first] + rest, |block|;
    assert all[n] == first;
    forall i | 0 <= i < |block| ensures mark !in Marks(block[i]) {
      assert all[i] == block[i];
    }
    forall i | 0 <= i < |rest| ensures mark !in Marks(rest[i]) {
      assert all[n + 1 + i] == rest[i];
    }
    NowhereInAll(block, mark);
    NowhereInAll(rest, mark);
  }

  lemma {:induction false} NowhereInAll(stmts: seq<Stmt>, mark: Mark)
    requires forall i :: 0 <= i < |stmts| ==> mark !in Marks(stmts[i])
    ensures mark !in MarksOfAll(stmts)
  {
    hide Marks;
    if stmts != [] {
      NowhereInAll(stmts[1..], mark);
    }
  }

  /** The built block holds no marks but those it began with and those of the statements given to it. */
  lemma {:induction false} AddedMarks(block: seq<Stmt>, stmts: seq<Stmt>, mark: Mark)
    requires mark !in MarksOfAll(block) && mark !in MarksOfAll(stmts)
    ensures mark !in MarksOfAll(AddedAll(block, stmts))
    decreases |stmts|
  {
    hide Marks, IsDead;
    if stmts != [] {
      MarksConcat(block, [stmts[0]]);
      assert [stmts[0]][1..] == [];
      AddedMarks(Added(block, stmts[0]), stmts[1..], mark);
    }
  }

  /** A built block behaves, from every entry, like the list with nothing left out exactly when what is left
      out holds no label and no case label. */
  lemma PruningKeepsBehaviourExactly(m: Machine, fuel: nat, stmts: seq<Stmt>, s: Store)
    requires LostForGood(stmts)
    ensures (forall entry :: ExecAll(m, fuel, AddedAll([], stmts), entry, s) == ExecAll(m, fuel, stmts, entry, s))
            <==> DropsNoMark([], stmts)
  {
    hide DropsNoMark, ExecAll, MarksOfAll, AddedAll, LeftOut;
    assert [] + stmts == stmts;
    NoneLeftOut([], stmts);
    if DropsNoMark([], stmts) {
      forall entry ensures ExecAll(m, fuel, AddedAll([], stmts), entry, s) == ExecAll(m, fuel, stmts, entry, s) {
        PruningKeepsBehaviour(m, fuel, [], stmts, entry, s);
      }
    } else {
      var mark :| mark in LeftOut([], stmts);
      AbsentIsMissed(m, fuel, AddedAll([], stmts), mark, s);
      AllEnteredIsFound(m, fuel, stmts, Some(mark), s);
    }
  }

  /** The same for a whole function body, through its gotos. */
  lemma PrunedFunctionExactly(m: Machine, fuel: nat, stmts: seq<Stmt>, s: Store)
    requires LostForGood(stmts)
    ensures
      (forall entry :: ExecFunction(m, fuel, AddedAll([], stmts), entry, s) == ExecFunction(m, fuel, stmts, entry, s))
      <==> DropsNoMark([], stmts)
  {
    hide DropsNoMark, ExecAll, MarksOfAll, AddedAll, LeftOut;
    assert [] + stmts == stmts;
    NoneLeftOut([], stmts);
    if DropsNoMark([], stmts) {
      forall entry
        ensures ExecFunction(m, fuel, AddedAll([], stmts), entry, s) == ExecFunction(m, fuel, stmts, entry, s)
      {
        PrunedFunction(m, fuel, stmts, entry, s);
      }
    } else {
      var mark :| mark in LeftOut([], stmts);
      AbsentIsMissed(m, fuel, AddedAll([], stmts), mark, s);
      FunctionEnteredIsFound(m, fuel, stmts, Some(mark), s);
    }
  }

  /** A label nested in what is left out is lost: a jump to it no longer finds it. */
  lemma NestedLabelIsLost(m: Machine, s: Store)
    ensures var stmts := [Return(None), Compound([Label("again")])];
      var entry := Some(NameMark("again"));
      && !DropsNoMark([], stmts)
      && ExecAll(m, 0, stmts, entry, s) == Done(Normal, s)
      && ExecAll(m, 0, AddedAll([], stmts), entry, s) == Done(Missing, s)
  {
    var ret, inner := Return(None), Compound([Label("again")]);
    var stmts := [ret, inner];
    var entry := Some(NameMark("again"));
    assert stmts[1..] == [inner] && [inner][1..] == [];
    assert Marks(inner) == {NameMark("again")} by {
      assert [Label("again")][1..] == [];
    }
    assert AddedAll([], stmts) == [ret] by {
      assert [] + [ret] == [ret];
      assert AddedAll([ret], [inner]) == AddedAll([ret], []);
    }
    LabelRuns(m, s);
    assert ExecAll(m, 0, [ret], entry, s) == ExecAll(m, 0, [], entry, s);
  }

  /** So is a whole body, run from its start: goto again; { again: } */
  lemma GotoIntoDroppedBlockIsLost(m: Machine, s: Store)
    ensures var stmts := [Goto("again"), Compound([Label("again")])];
      && DistinctMarks(stmts) && !DropsNoMark([], stmts)
      && ExecFunction(m, 1, stmts, None, s) == Done(Normal, s)
      && ExecFunction(m, 1, AddedAll([], stmts), None, s) == Done(Jumping("again"), s)
  {
    var jump, inner := Goto("again"), Compound([Label("again")]);
    var stmts := [jump, inner];
    assert stmts[1..] == [inner] && [inner][1..] == [] && [jump][1..] == [];
    assert Marks(inner) == {NameMark("again")} by {
      assert [Label("again")][1..] == [];
    }
    assert AddedAll([], stmts) == [jump] by {
      assert [] + [jump] == [jump];
      assert AddedAll([jump], [inner]) == AddedAll([jump], []);
    }
    assert MarksOfAll(stmts) == {NameMark("again")} && MarksOfAll([jump]) == {};
    LabelRuns(m, s);
    GotoLeads(m, 1, stmts, s);
    GotoLeads(m, 1, [jump], s);
    assert ExecAll(m, 0, stmts, Some(NameMark("again")), s) == ExecAll(m, 0, [inner], Some(NameMark("again")), s);
  }

  lemma GotoLeads(m: Machine, fuel: nat, stmts: seq<Stmt>, s: Store)
    requires stmts != [] && stmts[0].Goto?
    ensures ExecAll(m, fuel, stmts, None, s) == Done(Jumping(stmts[0].target), s)
  {
  }

  lemma LabelRuns(m: Machine, s: Store)
    ensures Exec(m, 0, Compound([Label("again")]), Some(NameMark("again")), s) == Done(Normal, s)
  {
    assert [Label("again")][1..] == [];
    assert Exec(m, 0, Label("again"), Some(NameMark("again")), s) == Done(Normal, s);
  }
}
