/** Renaming a variable in whole statements (core/c_ast_utils.cc, SubstituteIdentifierInStatement). */
module CRenameStatements {
  import opened CAst
  import opened CRename
  import opened CSearch
  import opened CSemantics
  import opened CSubstitution
  import opened CUnchanged
  import opened Wrappers

  // ----- The rewrite -----

  function RenamedOption(e: Option<Expr>, x: string, y: string): Option<Expr> {
    if e.Some? then Some(Renamed(e.value, x, y)) else None
  }

  /** Every expression is renamed, except in declarations, which stay as they are. */
  function RenamedStmt(st: Stmt, x: string, y: string): Stmt
    decreases st, 1
  {
    match st
    case Compound(statements) => Compound(RenamedStmts(statements, x, y))
    case ExpressionStatement(e) => ExpressionStatement(Renamed(e, x, y))
    case If(c, thenBranch, elseBranch) =>
      If(Renamed(c, x, y), RenamedStmt(thenBranch, x, y),
         if elseBranch.Some? then Some(RenamedStmt(elseBranch.value, x, y)) else None)
    case While(c, body) => While(Renamed(c, x, y), RenamedStmt(body, x, y))
    case DoWhile(body, c) => DoWhile(RenamedStmt(body, x, y), Renamed(c, x, y))
    case For(init, c, step, body) =>
      For(if init.Some? then Some(RenamedStmt(init.value, x, y)) else None,
          RenamedOption(c, x, y), RenamedOption(step, x, y), RenamedStmt(body, x, y))
    case Return(value) => Return(RenamedOption(value, x, y))
    case Switch(c, cases) => Switch(Renamed(c, x, y), RenamedCases(cases, x, y))
    case _ => st
  }

  function RenamedStmts(stmts: seq<Stmt>, x: string, y: string): (r: seq<Stmt>)
    ensures |r| == |stmts|
    decreases stmts, 0
  {
    if stmts == [] then [] else RenamedStmts(stmts[..|stmts| - 1], x, y) + [RenamedStmt(stmts[|stmts| - 1], x, y)]
  }

  function RenamedCases(cases: seq<SwitchCase>, x: string, y: string): (r: seq<SwitchCase>)
    ensures |r| == |cases|
    decreases cases, 0
  {
    if cases == [] then []
    else
      var c := cases[|cases| - 1];
      RenamedCases(cases[..|cases| - 1], x, y) + [SwitchCase(c.caseValues, c.isDefault, RenamedStmts(c.body, x, y))]
  }

  /** Whether the mutator meets an expression: it then reports a change. */
  predicate MeetsExpression(st: Stmt)
    decreases st, 1
  {
    match st
    case Compound(statements) => AnyMeetsExpression(statements)
    case ExpressionStatement(_) => true
    case If(_, _, _) => true
    case While(_, _) => true
    case DoWhile(_, _) => true
    case For(init, c, step, body) =>
      (init.Some? && MeetsExpression(init.value)) || c.Some? || step.Some? || MeetsExpression(body)
    case Return(value) => value.Some?
    case Switch(_, _) => true
    case _ => false
  }

  predicate AnyMeetsExpression(stmts: seq<Stmt>)
    decreases stmts, 0
  {
    stmts != [] && (AnyMeetsExpression(stmts[..|stmts| - 1]) || MeetsExpression(stmts[|stmts| - 1]))
  }

  /** The mutator that walks a statement and replaces its expressions. */
  class SubstituteStatementMutator {
    const from: string
    const to: string
    var changed: bool

    constructor (from: string, to: string)
      ensures this.from == from && this.to == to && !changed
    {
      this.from, this.to, changed := from, to, false;
    }

    method MutateExpression(e: Expr) returns (r: Expr)
      modifies this
      ensures r == Renamed(e, from, to) && changed
    {
      r := SubstituteIdentifier(e, from, NewIdentifier(to));
      changed := true;
    }

    method MutateOption(e: Option<Expr>) returns (r: Option<Expr>)
      modifies this
      ensures r == RenamedOption(e, from, to) && changed == (old(changed) || e.Some?)
    {
      r := None;
      if e.Some? {
        var v := MutateExpression(e.value);
        r := Some(v);
      }
    }

    method MutateStatement(st: Stmt) returns (r: Stmt)
      modifies this
      ensures r == RenamedStmt(st, from, to)
      ensures changed == (old(changed) || MeetsExpression(st))
      decreases st, 1
    {
      hide Renamed;
      match st
      case Compound(statements) =>
        var inner := MutateStatements(statements);
        r := Compound(inner);
      case ExpressionStatement(e) =>
        var v := MutateExpression(e);
        r := ExpressionStatement(v);
      case If(c, thenBranch, elseBranch) =>
        var v := MutateExpression(c);
        var yes := MutateStatement(thenBranch);
        var no := None;
        if elseBranch.Some? {
          var n := MutateStatement(elseBranch.value);
          no := Some(n);
        }
        r := If(v, yes, no);
      case While(c, body) =>
        var v := MutateExpression(c);
        var inner := MutateStatement(body);
        r := While(v, inner);
      case DoWhile(body, c) =>
        var inner := MutateStatement(body);
        var v := MutateExpression(c);
        r := DoWhile(inner, v);
      case For(init, c, step, body) =>
        var first := None;
        if init.Some? {
          var i := MutateStatement(init.value);
          first := Some(i);
        }
        var condition := MutateOption(c);
        var next := MutateOption(step);
        var inner := MutateStatement(body);
        r := For(first, condition, next, inner);
      case Return(value) =>
        var v := MutateOption(value);
        r := Return(v);
      case Switch(c, cases) =>
        var v := MutateExpression(c);
        var inner := MutateCases(cases);
        r := Switch(v, inner);
      case _ =>
        r := st;
    }

    method MutateStatements(stmts: seq<Stmt>) returns (r: seq<Stmt>)
      modifies this
      ensures r == RenamedStmts(stmts, from, to)
      ensures changed == (old(changed) || AnyMeetsExpression(stmts))
      decreases stmts, 0
    {
      hide RenamedStmt, MeetsExpression;
      r := [];
      for i := 0 to |stmts|
        invariant r == RenamedStmts(stmts[..i], from, to)
        invariant changed == (old(changed) || AnyMeetsExpression(stmts[..i]))
      {
        assert stmts[..i + 1][..i] == stmts[..i];
        var st := MutateStatement(stmts[i]);
        r := r + [st];
      }
      assert stmts[..|stmts|] == stmts;
    }

    method MutateCases(cases: seq<SwitchCase>) returns (r: seq<SwitchCase>)
      requires changed
      modifies this
      ensures r == RenamedCases(cases, from, to) && changed
      decreases cases, 0
    {
      hide RenamedStmts;
      r := [];
      for i := 0 to |cases|
        invariant r == RenamedCases(cases[..i], from, to) && changed
      {
        assert cases[..i + 1][..i] == cases[..i];
        var c := cases[i];
        var body := MutateStatements(c.body);
        r := r + [SwitchCase(c.caseValues, c.isDefault, body)];
      }
      assert cases[..|cases|] == cases;
    }
  }

  method SubstituteIdentifierInStatement(st: Stmt, from: string, to: string) returns (r: Stmt)
    ensures r == RenamedStmt(st, from, to)
  {
    var mutator := new SubstituteStatementMutator(from, to);
    r := mutator.MutateStatement(st);
  }

  // ----- Renaming everywhere -----

  /** Declarations are renamed too. */
  function WholeDeclaration(st: Stmt, x: string, y: string): Stmt
    requires st.VariableDeclaration?
  {
    if HitsStmt(DeclarationUsing(x), st) then
      VariableDeclaration(
        st.declaredType, if st.declaredName == x then y else st.declaredName, RenamedOption(st.initializer, x, y))
    else st
  }

  function Whole(st: Stmt, x: string, y: string): Stmt
    decreases st, 1
  {
    match st
    case Compound(statements) => Compound(WholeAll(statements, x, y))
    case ExpressionStatement(e) => ExpressionStatement(Renamed(e, x, y))
    case VariableDeclaration(_, _, _) => WholeDeclaration(st, x, y)
    case If(c, thenBranch, elseBranch) =>
      If(Renamed(c, x, y), Whole(thenBranch, x, y),
         if elseBranch.Some? then Some(Whole(elseBranch.value, x, y)) else None)
    case While(c, body) => While(Renamed(c, x, y), Whole(body, x, y))
    case DoWhile(body, c) => DoWhile(Whole(body, x, y), Renamed(c, x, y))
    case For(init, c, step, body) =>
      For(if init.Some? then Some(Whole(init.value, x, y)) else None,
          RenamedOption(c, x, y), RenamedOption(step, x, y), Whole(body, x, y))
    case Return(value) => Return(RenamedOption(value, x, y))
    case Switch(c, cases) => Switch(Renamed(c, x, y), WholeCases(cases, x, y))
    case _ => st
  }

  function WholeAll(stmts: seq<Stmt>, x: string, y: string): (r: seq<Stmt>)
    ensures |r| == |stmts|
    decreases stmts, 0
  {
    if stmts == [] then [] else WholeAll(stmts[..|stmts| - 1], x, y) + [Whole(stmts[|stmts| - 1], x, y)]
  }

  function WholeCases(cases: seq<SwitchCase>, x: string, y: string): (r: seq<SwitchCase>)
    ensures |r| == |cases|
    decreases cases, 0
  {
    if cases == [] then []
    else
      var c := cases[|cases| - 1];
      WholeCases(cases[..|cases| - 1], x, y) + [SwitchCase(c.caseValues, c.isDefault, WholeAll(c.body, x, y))]
  }

  predicate Names(e: Expr, x: string) { InExpr(Reference(x), e) }

  lemma NamesParts(e: Expr, x: string)
    ensures !e.Identifier? ==> (Names(e, x) <==>
      match e
      case Unary(_, operand, _) => Names(operand, x)
      case Binary(_, lhs, rhs) => Names(lhs, x) || Names(rhs, x)
      case Assignment(_, lhs, rhs) => Names(lhs, x) || Names(rhs, x)
      case Call(callee, arguments) => Names(callee, x) || InExprs(Reference(x), arguments)
      case Cast(_, operand) => Names(operand, x)
      case MemberAccess(object', _, _) => Names(object', x)
      case ArrayIndex(array', index) => Names(array', x) || Names(index, x)
      case Ternary(c, yes, no) => Names(c, x) || Names(yes, x) || Names(no, x)
      case _ => false)
  {
    hide InExprs;
  }

  lemma CastNames(t: CType, e: Expr, x: string)
    ensures Names(SimplifiedCast(t, e), x) <==> Names(e, x)
  {
    NamesParts(SimplifiedCast(t, e), x);
    NamesParts(e, x);
    if IsPlainCast(e, "f64") {
      NamesParts(e.operand, x);
    }
    hide Names;
  }

  lemma NewNameIsAnother(e: Expr, x: string, y: string)
    requires x != y && e.Identifier? && !InExpr(CastName(x), e)
    ensures !Names(Renamed(e, x, y), x)
  {
    ExprParts(CastName(x), e);
    RenamedShape(e, x, y);
    hide Renamed, CastsName;
  }

  /** A renamed expression does not name the variable any more. */
  lemma {:induction false} RenamedIsGone(e: Expr, x: string, y: string)
    requires x != y && !InExpr(CastName(x), e)
    ensures !Names(Renamed(e, x, y), x)
    decreases e, 1
  {
    hide Renamed, Names, InExpr, InExprs, SimplifiedCast;
    ExprParts(CastName(x), e);
    RenamedShape(e, x, y);
    if e.Cast? {
      CastNames(e.targetType, Renamed(e.operand, x, y), x);
    } else {
      NamesParts(Renamed(e, x, y), x);
    }
    match e
    case Identifier(_, _, _) =>
      NewNameIsAnother(e, x, y);
    case Unary(_, operand, _) =>
      RenamedIsGone(operand, x, y);
    case Binary(_, lhs, rhs) =>
      RenamedIsGone(lhs, x, y);
      RenamedIsGone(rhs, x, y);
    case Assignment(_, lhs, rhs) =>
      RenamedIsGone(lhs, x, y);
      RenamedIsGone(rhs, x, y);
    case Call(callee, arguments) =>
      RenamedIsGone(callee, x, y);
      RenamedAreGone(arguments, x, y);
    case Cast(_, operand) =>
      RenamedIsGone(operand, x, y);
    case MemberAccess(object', _, _) =>
      RenamedIsGone(object', x, y);
    case ArrayIndex(array', index) =>
      RenamedIsGone(array', x, y);
      RenamedIsGone(index, x, y);
    case Ternary(c, yes, no) =>
      RenamedIsGone(c, x, y);
      RenamedIsGone(yes, x, y);
      RenamedIsGone(no, x, y);
    case _ =>
  }

  lemma {:induction false} RenamedAreGone(es: seq<Expr>, x: string, y: string)
    requires x != y && !InExprs(CastName(x), es)
    ensures !InExprs(Reference(x), RenamedAll(es, x, y))
    decreases es, 0
  {
    hide Renamed, InExpr;
    if es != [] {
      var n := |es| - 1;
      assert es == es[..n] + [es[n]];
      RenamedAllLast(es, x, y);
      RenamedAreGone(es[..n], x, y);
      RenamedIsGone(es[n], x, y);
    }
  }

  lemma {:induction false} DeclaresNothing(e: Expr, x: string)
    ensures !InExpr(DeclarationUsing(x), e)
    decreases e, 1
  {
    match e
    case Unary(_, operand, _) =>
      DeclaresNothing(operand, x);
    case Binary(_, lhs, rhs) =>
      DeclaresNothing(lhs, x);
      DeclaresNothing(rhs, x);
    case Assignment(_, lhs, rhs) =>
      DeclaresNothing(lhs, x);
      DeclaresNothing(rhs, x);
    case Call(callee, arguments) =>
      DeclaresNothing(callee, x);
      DeclareNothing(arguments, x);
    case Cast(_, operand) =>
      DeclaresNothing(operand, x);
    case MemberAccess(object', _, _) =>
      DeclaresNothing(object', x);
    case ArrayIndex(array', index) =>
      DeclaresNothing(array', x);
      DeclaresNothing(index, x);
    case Ternary(c, yes, no) =>
      DeclaresNothing(c, x);
      DeclaresNothing(yes, x);
      DeclaresNothing(no, x);
    case _ =>
  }

  lemma {:induction false} DeclareNothing(es: seq<Expr>, x: string)
    ensures !InExprs(DeclarationUsing(x), es)
    decreases es, 0
  {
    if es != [] {
      DeclareNothing(es[..|es| - 1], x);
      DeclaresNothing(es[|es| - 1], x);
    }
  }

  /** The mutator renames a statement everywhere exactly when no declaration in it mentions the variable. */
  lemma {:induction false} MutatorIsWholeExactly(st: Stmt, x: string, y: string)
    requires x != y && !InStmt(CastName(x), st)
    ensures RenamedStmt(st, x, y) == Whole(st, x, y) <==> !InStmt(DeclarationUsing(x), st)
    decreases st, 1
  {
    StmtParts(CastName(x), st);
    hide Renamed, InExpr;
    forall e ensures !InExpr(DeclarationUsing(x), e) {
      DeclaresNothing(e, x);
    }
    match st
    case Compound(statements) =>
      MutatorIsWholeForAll(statements, x, y);
    case VariableDeclaration(_, _, init) =>
      if init.Some? {
        RenamedIsGone(init.value, x, y);
      }
    case If(_, thenBranch, elseBranch) =>
      MutatorIsWholeExactly(thenBranch, x, y);
      if elseBranch.Some? {
        MutatorIsWholeExactly(elseBranch.value, x, y);
      }
    case While(_, body) =>
      MutatorIsWholeExactly(body, x, y);
    case DoWhile(body, _) =>
      MutatorIsWholeExactly(body, x, y);
    case For(init, _, _, body) =>
      if init.Some? {
        MutatorIsWholeExactly(init.value, x, y);
      }
      MutatorIsWholeExactly(body, x, y);
    case Switch(_, cases) =>
      MutatorIsWholeForCases(cases, x, y);
    case _ =>
  }

  lemma {:induction false} MutatorIsWholeForAll(stmts: seq<Stmt>, x: string, y: string)
    requires x != y && !InStmts(CastName(x), stmts)
    ensures RenamedStmts(stmts, x, y) == WholeAll(stmts, x, y) <==> !InStmts(DeclarationUsing(x), stmts)
    decreases stmts, 0
  {
    hide RenamedStmt, Whole, InStmt;
    if stmts != [] {
      var n := |stmts| - 1;
      MutatorIsWholeForAll(stmts[..n], x, y);
      MutatorIsWholeExactly(stmts[n], x, y);
      var a, b := RenamedStmts(stmts, x, y), WholeAll(stmts, x, y);
      assert a[..n] == RenamedStmts(stmts[..n], x, y) && b[..n] == WholeAll(stmts[..n], x, y);
      assert a[n] == RenamedStmt(stmts[n], x, y) && b[n] == Whole(stmts[n], x, y);
    }
  }

  lemma {:induction false} MutatorIsWholeForCases(cases: seq<SwitchCase>, x: string, y: string)
    requires x != y && !InCases(CastName(x), cases)
    ensures RenamedCases(cases, x, y) == WholeCases(cases, x, y) <==> !InCases(DeclarationUsing(x), cases)
    decreases cases, 0
  {
    hide RenamedStmts, WholeAll, InStmts;
    if cases != [] {
      var n := |cases| - 1;
      MutatorIsWholeForCases(cases[..n], x, y);
      MutatorIsWholeForAll(cases[n].body, x, y);
      var a, b := RenamedCases(cases, x, y), WholeCases(cases, x, y);
      assert a[..n] == RenamedCases(cases[..n], x, y) && b[..n] == WholeCases(cases[..n], x, y);
      assert a[n].body == RenamedStmts(cases[n].body, x, y) && b[n].body == WholeAll(cases[n].body, x, y);
    }
  }

  // ----- Shape -----

  lemma {:induction false} WholeAllFront(stmts: seq<Stmt>, x: string, y: string)
    requires stmts != []
    ensures WholeAll(stmts, x, y) == [Whole(stmts[0], x, y)] + WholeAll(stmts[1..], x, y)
  {
    hide Whole;
    var n := |stmts| - 1;
    if n > 0 {
      WholeAllFront(stmts[..n], x, y);
      assert stmts[..n][1..] == stmts[1..][..n - 1];
    } else {
      assert stmts[..0] == [] && stmts[1..] == [];
    }
  }

  function WholeCase(c: SwitchCase, x: string, y: string): SwitchCase {
    SwitchCase(c.caseValues, c.isDefault, WholeAll(c.body, x, y))
  }

  lemma {:induction false} WholeCasesFront(cases: seq<SwitchCase>, x: string, y: string)
    requires cases != []
    ensures WholeCases(cases, x, y) == [WholeCase(cases[0], x, y)] + WholeCases(cases[1..], x, y)
  {
    hide WholeAll;
    var n := |cases| - 1;
    if n > 0 {
      WholeCasesFront(cases[..n], x, y);
      assert cases[..n][1..] == cases[1..][..n - 1];
    } else {
      assert cases[..0] == [] && cases[1..] == [];
    }
  }

  lemma {:induction false} WholeCasesFrom(cases: seq<SwitchCase>, k: nat, x: string, y: string)
    requires k <= |cases|
    ensures WholeCases(cases, x, y)[k..] == WholeCases(cases[k..], x, y)
  {
    hide WholeAll;
    if k == 0 {
      assert cases[0..] == cases;
    } else {
      WholeCasesFrom(cases, k - 1, x, y);
      WholeCasesFront(cases[k - 1..], x, y);
      assert cases[k - 1..][1..] == cases[k..];
      assert WholeCases(cases, x, y)[k..] == WholeCases(cases, x, y)[k - 1..][1..];
    }
  }

  /** Renaming variables touches no marks. */
  lemma {:induction false} RenamedMarks(st: Stmt, x: string, y: string)
    ensures Marks(Whole(st, x, y)) == Marks(st)
    decreases st, 1
  {
    match st
    case Compound(statements) =>
      RenamedMarksOfAll(statements, x, y);
    case If(_, thenBranch, elseBranch) =>
      RenamedMarks(thenBranch, x, y);
      if elseBranch.Some? {
        RenamedMarks(elseBranch.value, x, y);
      }
    case While(_, body) =>
      RenamedMarks(body, x, y);
    case DoWhile(body, _) =>
      RenamedMarks(body, x, y);
    case For(init, _, _, body) =>
      RenamedMarks(body, x, y);
      if init.Some? {
        RenamedMarks(init.value, x, y);
      }
    case Switch(_, cases) =>
      RenamedMarksOfCases(cases, x, y);
    case _ =>
  }

  lemma {:induction false} RenamedMarksOfAll(stmts: seq<Stmt>, x: string, y: string)
    ensures MarksOfAll(WholeAll(stmts, x, y)) == MarksOfAll(stmts)
    decreases stmts, 0
  {
    if stmts != [] {
      WholeAllFront(stmts, x, y);
      RenamedMarks(stmts[0], x, y);
      RenamedMarksOfAll(stmts[1..], x, y);
      assert WholeAll(stmts, x, y)[1..] == WholeAll(stmts[1..], x, y);
      hide Marks, Whole;
    }
  }

  lemma {:induction false} RenamedMarksOfCases(cases: seq<SwitchCase>, x: string, y: string)
    ensures MarksOfCases(WholeCases(cases, x, y)) == MarksOfCases(cases)
    decreases cases, 0
  {
    if cases != [] {
      WholeCasesFront(cases, x, y);
      RenamedMarksOfAll(cases[0].body, x, y);
      RenamedMarksOfCases(cases[1..], x, y);
      assert WholeCases(cases, x, y)[1..] == WholeCases(cases[1..], x, y);
      hide MarksOfAll, WholeAll;
    }
  }

  lemma {:induction false} RenamedChoice(cases: seq<SwitchCase>, n: int, x: string, y: string)
    ensures FirstWith(WholeCases(cases, x, y), n) == FirstWith(cases, n)
    ensures FirstDefault(WholeCases(cases, x, y)) == FirstDefault(cases)
  {
    if cases != [] {
      WholeCasesFront(cases, x, y);
      RenamedChoice(cases[1..], n, x, y);
      assert WholeCases(cases, x, y)[1..] == WholeCases(cases[1..], x, y);
      hide WholeAll;
    }
  }

  lemma WholeShape(st: Stmt, x: string, y: string)
    ensures st.Compound? ==> Whole(st, x, y) == Compound(WholeAll(st.statements, x, y))
    ensures st.If? ==>
      Whole(st, x, y) ==
      If(Renamed(st.condition, x, y), Whole(st.thenBranch, x, y),
         if st.elseBranch.Some? then Some(Whole(st.elseBranch.value, x, y)) else None)
    ensures st.While? ==>
      Whole(st, x, y) == While(Renamed(st.condition, x, y), Whole(st.loopBody, x, y))
    ensures st.DoWhile? ==>
      Whole(st, x, y) == DoWhile(Whole(st.loopBody, x, y), Renamed(st.condition, x, y))
    ensures st.For? ==>
      Whole(st, x, y) ==
      For(if st.init.Some? then Some(Whole(st.init.value, x, y)) else None,
          RenamedOption(st.forCondition, x, y), RenamedOption(st.step, x, y), Whole(st.loopBody, x, y))
    ensures st.Switch? ==>
      Whole(st, x, y) == Switch(Renamed(st.condition, x, y), WholeCases(st.cases, x, y))
  {
  }

  // ----- Renaming commutes with execution -----

  /** y is fresh, and nothing casts x to a function pointer by name. */
  ghost predicate RenamableStmt(st: Stmt, x: string, y: string) {
    && !InStmt(Reference(y), st) && !InStmt(Declaration(y), st)
    && !InStmt(CastName(x), st)
  }

  ghost predicate RenamableStmts(stmts: seq<Stmt>, x: string, y: string) {
    && !InStmts(Reference(y), stmts) && !InStmts(Declaration(y), stmts)
    && !InStmts(CastName(x), stmts)
  }

  ghost predicate RenamableCases(cases: seq<SwitchCase>, x: string, y: string) {
    && !InCases(Reference(y), cases) && !InCases(Declaration(y), cases)
    && !InCases(CastName(x), cases)
  }

  ghost predicate RenamableOption(e: Option<Expr>, x: string, y: string) { e.Some? ==> Renamable(e.value, x, y) }

  lemma RenamableStmtParts(st: Stmt, x: string, y: string)
    requires RenamableStmt(st, x, y)
    ensures st.Compound? ==> RenamableStmts(st.statements, x, y)
    ensures st.ExpressionStatement? ==> Renamable(st.expression, x, y)
    ensures st.VariableDeclaration? ==>
      st.declaredName != y && RenamableOption(st.initializer, x, y) &&
      (!HitsStmt(DeclarationUsing(x), st) && st.initializer.Some? ==> Absent(st.initializer.value, x))
    ensures st.If? ==> Renamable(st.condition, x, y) && RenamableStmt(st.thenBranch, x, y) &&
                       (st.elseBranch.Some? ==> RenamableStmt(st.elseBranch.value, x, y))
    ensures st.While? ==> Renamable(st.condition, x, y) && RenamableStmt(st.loopBody, x, y)
    ensures st.DoWhile? ==> Renamable(st.condition, x, y) && RenamableStmt(st.loopBody, x, y)
    ensures st.For? ==> (st.init.Some? ==> RenamableStmt(st.init.value, x, y)) &&
                        RenamableOption(st.forCondition, x, y) && RenamableOption(st.step, x, y) &&
                        RenamableStmt(st.loopBody, x, y)
    ensures st.Return? ==> RenamableOption(st.returnValue, x, y)
    ensures st.Switch? ==> Renamable(st.condition, x, y) && RenamableCases(st.cases, x, y)
  {
    StmtParts(Reference(y), st);
    StmtParts(Declaration(y), st);
    StmtParts(CastName(x), st);
    hide InExpr, InStmt, InStmts, InCases;
  }

  lemma RenamableStmtsFront(stmts: seq<Stmt>, x: string, y: string)
    requires RenamableStmts(stmts, x, y) && stmts != []
    ensures RenamableStmt(stmts[0], x, y) && RenamableStmts(stmts[1..], x, y)
  {
    InStmtsFront(Reference(y), stmts);
    InStmtsFront(Declaration(y), stmts);
    InStmtsFront(CastName(x), stmts);
    hide InStmt, InStmts;
  }

  lemma RenamableCasesFront(cases: seq<SwitchCase>, x: string, y: string)
    requires RenamableCases(cases, x, y) && cases != []
    ensures RenamableStmts(cases[0].body, x, y) && RenamableCases(cases[1..], x, y)
  {
    InCasesFront(Reference(y), cases);
    InCasesFront(Declaration(y), cases);
    InCasesFront(CastName(x), cases);
    hide InStmts, InCases;
  }

  lemma RenamableCasesFrom(cases: seq<SwitchCase>, k: nat, x: string, y: string)
    requires RenamableCases(cases, x, y) && k <= |cases|
    ensures RenamableCases(cases[k..], x, y)
  {
    InCasesFrom(Reference(y), cases, k);
    InCasesFrom(Declaration(y), cases, k);
    InCasesFrom(CastName(x), cases, k);
    hide InCases;
  }

  /** What an operator interpretation must satisfy. */
  ghost predicate Lawful(m: Machine, x: string, y: string) { Nameless(m, x, y) && CastsDirectly(m) }

  function SwapOutcome(o: Outcome, x: string, y: string): Outcome {
    if o.Returned? && o.value.Some? then Returned(Some(SwapValue(o.value.value, x, y))) else o
  }

  ghost predicate SwappedRun(a: Run, b: Run, x: string, y: string) {
    if a.Timeout? then b.Timeout?
    else b.Done? && b.outcome == SwapOutcome(a.outcome, x, y) && Swapped(a.store, b.store, x, y)
  }

  lemma RenamedEvalOption(m: Machine, e: Option<Expr>, s: Store, t: Store, x: string, y: string)
    requires Lawful(m, x, y) && RenamableOption(e, x, y) && Swapped(s, t, x, y)
    ensures SwappedEval(EvalOption(m, e, s), EvalOption(m, RenamedOption(e, x, y), t), x, y)
  {
    if e.Some? {
      RenamedEval(m, e.value, s, t, x, y);
    }
    hide Eval, Renamed;
  }

  /** Renaming x to a fresh y commutes with execution: the renamed statement takes exchanged states to
      exchanged states, with the same outcome, in the same number of rounds, from any entry. */
  lemma {:induction false} RenamedExec(
    m: Machine, fuel: nat, st: Stmt, entry: Option<Mark>, s: Store, t: Store, x: string, y: string)
    requires Lawful(m, x, y) && RenamableStmt(st, x, y) && Swapped(s, t, x, y)
    ensures SwappedRun(Exec(m, fuel, st, entry, s), Exec(m, fuel, Whole(st, x, y), entry, t), x, y)
    decreases fuel, st, 4
  {
    hide RenamableStmt, Renamable, Swapped, Lawful, Nameless, CastsDirectly, Marks, Eval, InStmt, InExpr, Renamed, SwapValue;
    RenamedMarks(st, x, y);
    if entry.Some? && entry.value !in Marks(st) {
      return;
    }
    RenamableStmtParts(st, x, y);
    match st
    case Compound(statements) =>
      RenamedExecAll(m, fuel, statements, entry, s, t, x, y);
    case ExpressionStatement(e) =>
      RenamedExpressionStatement(m, e, s, t, x, y);
    case VariableDeclaration(_, _, _) =>
      RenamedDeclaration(m, fuel, st, entry, s, t, x, y);
    case If(_, _, _) =>
      RenamedIf(m, fuel, st, entry, s, t, x, y);
    case While(_, _) =>
      RenamedWhile(m, fuel, st, entry, s, t, x, y);
    case DoWhile(_, _) =>
      RenamedDoWhile(m, fuel, st, entry, s, t, x, y);
    case For(_, _, _, _) =>
      RenamedFor(m, fuel, st, entry, s, t, x, y);
    case Return(value) =>
      RenamedReturn(m, value, s, t, x, y);
    case Switch(_, _) =>
      RenamedSwitch(m, fuel, st, entry, s, t, x, y);
    case _ =>
  }

  lemma RenamedExpressionStatement(m: Machine, e: Expr, s: Store, t: Store, x: string, y: string)
    requires Lawful(m, x, y) && Renamable(e, x, y) && Swapped(s, t, x, y)
    ensures SwappedRun(Done(Normal, Eval(m, e, s).store), Done(Normal, Eval(m, Renamed(e, x, y), t).store), x, y)
  {
    RenamedEval(m, e, s, t, x, y);
    hide Eval, Renamed, Swapped;
  }

  lemma RenamedReturn(m: Machine, e: Option<Expr>, s: Store, t: Store, x: string, y: string)
    requires Lawful(m, x, y) && RenamableOption(e, x, y) && Swapped(s, t, x, y)
    ensures e.Some? ==>
      var v, w := Eval(m, e.value, s), Eval(m, Renamed(e.value, x, y), t);
      SwappedRun(Done(Returned(Some(v.value)), v.store), Done(Returned(Some(w.value)), w.store), x, y)
  {
    if e.Some? {
      RenamedEval(m, e.value, s, t, x, y);
    }
    hide Eval, Renamed, Swapped;
  }

  lemma VarSwapped(name: string, x: string, y: string)
    requires name != y
    ensures SwapLoc(Var(name), x, y) == Var(if name == x then y else name)
  {
  }

  lemma RenamedDeclaration(
    m: Machine, fuel: nat, st: Stmt, entry: Option<Mark>, s: Store, t: Store, x: string, y: string)
    requires Lawful(m, x, y) && RenamableStmt(st, x, y) && Swapped(s, t, x, y) && st.VariableDeclaration?
    requires entry.Some? ==> entry.value in Marks(st)
    ensures SwappedRun(Exec(m, fuel, st, entry, s), Exec(m, fuel, Whole(st, x, y), entry, t), x, y)
  {
    hide Eval, Renamed, Swapped, Absent, RenamableStmt, Renamable, SwapValue, Put, Lawful, Nameless, CastsDirectly, InStmt,
      InExpr, Marks;
    RenamableStmtParts(st, x, y);
    RenamedMarks(st, x, y);
    UnfoldLawful(m, x, y);
    VarSwapped(st.declaredName, x, y);
    if st.initializer.Some? {
      var e := st.initializer.value;
      RenamedEval(m, e, s, t, x, y);
      if !HitsStmt(DeclarationUsing(x), st) {
        AbsentEval(m, e, t, x, y);
      }
      var v, w := Eval(m, e, s), Eval(m, Renamed(e, x, y), t);
      SwappedPut(v.store, w.store, Var(st.declaredName), v.value, x, y);
    }
  }

  lemma {:induction false} RenamedIf(
    m: Machine, fuel: nat, st: Stmt, entry: Option<Mark>, s: Store, t: Store, x: string, y: string)
    requires Lawful(m, x, y) && RenamableStmt(st, x, y) && Swapped(s, t, x, y) && st.If?
    requires entry.Some? ==> entry.value in Marks(st)
    ensures SwappedRun(Exec(m, fuel, st, entry, s), Exec(m, fuel, Whole(st, x, y), entry, t), x, y)
    decreases fuel, st, 3
  {
    hide RenamableStmt, RenamableStmts, RenamableCases, Renamable, Swapped, Lawful, Nameless, CastsDirectly, Marks, Eval,
      Truthy, SwapValue, Exec, Whole, Renamed, InStmt, InExpr, Enters;
    RenamableStmtParts(st, x, y);
    RenamedMarks(st, x, y);
    RenamedMarks(st.thenBranch, x, y);
    WholeShape(st, x, y);
    var st' := Whole(st, x, y);
    UnfoldLawful(m, x, y);
    if entry.Some? {
      ExecIfAt(m, fuel, st, entry, s);
      ExecIfAt(m, fuel, st', entry, t);
    } else {
      ExecIf(m, fuel, st, s);
      ExecIf(m, fuel, st', t);
    }
    if entry.Some? {
      RenamedExec(m, fuel, st.thenBranch, entry, s, t, x, y);
      if st.elseBranch.Some? {
        RenamedExec(m, fuel, st.elseBranch.value, entry, s, t, x, y);
      }
    } else {
      RenamedEval(m, st.condition, s, t, x, y);
      var c, c' := Eval(m, st.condition, s), Eval(m, st'.condition, t);
      SwappedPlaces(c.value, IntV(0), x, y);
      RenamedExec(m, fuel, st.thenBranch, None, c.store, c'.store, x, y);
      if st.elseBranch.Some? {
        RenamedExec(m, fuel, st.elseBranch.value, None, c.store, c'.store, x, y);
      }
    }
  }

  lemma {:induction false} RenamedAfterRound(
    m: Machine, fuel: nat, st: Stmt, r: Run, q: Run, x: string, y: string)
    requires Lawful(m, x, y) && RenamableStmt(st, x, y) && (st.While? || st.DoWhile?) && SwappedRun(r, q, x, y)
    ensures SwappedRun(AfterRound(m, fuel, st, r), AfterRound(m, fuel, Whole(st, x, y), q), x, y)
    decreases fuel, st, 2
  {
    hide Lawful, RenamableStmt, Swapped, Exec;
    if r.Done? && (r.outcome.Normal? || r.outcome.Continued?) && fuel > 0 {
      RenamedExec(m, fuel - 1, st, None, r.store, q.store, x, y);
    }
  }

  lemma {:induction false} RenamedWhile(
    m: Machine, fuel: nat, st: Stmt, entry: Option<Mark>, s: Store, t: Store, x: string, y: string)
    requires Lawful(m, x, y) && RenamableStmt(st, x, y) && Swapped(s, t, x, y) && st.While?
    requires entry.Some? ==> entry.value in Marks(st)
    ensures SwappedRun(Exec(m, fuel, st, entry, s), Exec(m, fuel, Whole(st, x, y), entry, t), x, y)
    decreases fuel, st, 3
  {
    hide RenamableStmt, RenamableStmts, RenamableCases, Renamable, Swapped, Lawful, Nameless, CastsDirectly, Marks, Eval,
      Truthy, SwapValue, Exec, Whole, Renamed, InStmt, InExpr, AfterRound;
    RenamableStmtParts(st, x, y);
    RenamedMarks(st, x, y);
    WholeShape(st, x, y);
    var st' := Whole(st, x, y);
    UnfoldLawful(m, x, y);
    ExecWhile(m, fuel, st, entry, s);
    ExecWhile(m, fuel, st', entry, t);
    if entry.Some? {
      RenamedExec(m, fuel, st.loopBody, entry, s, t, x, y);
      RenamedAfterRound(
        m, fuel, st, Exec(m, fuel, st.loopBody, entry, s), Exec(m, fuel, st'.loopBody, entry, t), x, y);
    } else {
      RenamedEval(m, st.condition, s, t, x, y);
      var c, c' := Eval(m, st.condition, s), Eval(m, st'.condition, t);
      SwappedPlaces(c.value, IntV(0), x, y);
      RenamedExec(m, fuel, st.loopBody, None, c.store, c'.store, x, y);
      RenamedAfterRound(
        m, fuel, st, Exec(m, fuel, st.loopBody, None, c.store), Exec(m, fuel, st'.loopBody, None, c'.store), x, y);
    }
  }

  lemma {:induction false} RenamedDoWhile(
    m: Machine, fuel: nat, st: Stmt, entry: Option<Mark>, s: Store, t: Store, x: string, y: string)
    requires Lawful(m, x, y) && RenamableStmt(st, x, y) && Swapped(s, t, x, y) && st.DoWhile?
    requires entry.Some? ==> entry.value in Marks(st)
    ensures SwappedRun(Exec(m, fuel, st, entry, s), Exec(m, fuel, Whole(st, x, y), entry, t), x, y)
    decreases fuel, st, 3
  {
    hide RenamableStmt, RenamableStmts, RenamableCases, Renamable, Swapped, Lawful, Nameless, CastsDirectly, Marks, Eval,
      Truthy, SwapValue, Exec, Whole, Renamed, InStmt, InExpr, AfterRound;
    RenamableStmtParts(st, x, y);
    RenamedMarks(st, x, y);
    WholeShape(st, x, y);
    var st' := Whole(st, x, y);
    UnfoldLawful(m, x, y);
    ExecDoWhile(m, fuel, st, entry, s);
    ExecDoWhile(m, fuel, st', entry, t);
    RenamedExec(m, fuel, st.loopBody, entry, s, t, x, y);
    var r, q := Exec(m, fuel, st.loopBody, entry, s), Exec(m, fuel, st'.loopBody, entry, t);
    if r.Done? && (r.outcome.Normal? || r.outcome.Continued?) {
      RenamedEval(m, st.condition, r.store, q.store, x, y);
      var c, c' := Eval(m, st.condition, r.store), Eval(m, st'.condition, q.store);
      SwappedPlaces(c.value, IntV(0), x, y);
      RenamedAfterRound(m, fuel, st, Done(Normal, c.store), Done(Normal, c'.store), x, y);
    }
  }

  lemma RenamableLaterRounds(st: Stmt, x: string, y: string)
    requires RenamableStmt(st, x, y) && st.For?
    ensures var later := For(None, st.forCondition, st.step, st.loopBody);
      var st' := Whole(st, x, y);
      RenamableStmt(later, x, y) && Whole(later, x, y) == For(None, st'.forCondition, st'.step, st'.loopBody)
  {
    hide InExpr, Renamed;
  }

  lemma {:induction false} RenamedAfterForRound(
    m: Machine, fuel: nat, st: Stmt, r: Run, q: Run, x: string, y: string)
    requires Lawful(m, x, y) && RenamableStmt(st, x, y) && st.For? && SwappedRun(r, q, x, y)
    ensures SwappedRun(AfterForRound(m, fuel, st, r), AfterForRound(m, fuel, Whole(st, x, y), q), x, y)
    decreases fuel, st, 2
  {
    hide Lawful, Nameless, CastsDirectly, RenamableStmt, Renamable, Swapped, Exec, Eval, Whole, Renamed, InStmt,
      InExpr;
    RenamableStmtParts(st, x, y);
    RenamableLaterRounds(st, x, y);
    var st' := Whole(st, x, y);
    WholeShape(st, x, y);
    UnfoldLawful(m, x, y);
    if r.Done? && (r.outcome.Normal? || r.outcome.Continued?) && fuel > 0 {
      var later := For(None, st.forCondition, st.step, st.loopBody);
      if st.step.Some? {
        RenamedEval(m, st.step.value, r.store, q.store, x, y);
        RenamedExec(
          m, fuel - 1, later, None, Eval(m, st.step.value, r.store).store, Eval(m, st'.step.value, q.store).store, x, y);
      } else {
        RenamedExec(m, fuel - 1, later, None, r.store, q.store, x, y);
      }
    }
  }

  lemma {:induction false} RenamedFor(
    m: Machine, fuel: nat, st: Stmt, entry: Option<Mark>, s: Store, t: Store, x: string, y: string)
    requires Lawful(m, x, y) && RenamableStmt(st, x, y) && Swapped(s, t, x, y) && st.For?
    requires entry.Some? ==> entry.value in Marks(st)
    ensures SwappedRun(Exec(m, fuel, st, entry, s), Exec(m, fuel, Whole(st, x, y), entry, t), x, y)
    decreases fuel, st, 3
  {
    hide RenamableStmt, RenamableStmts, RenamableCases, Renamable, Swapped, Lawful, Nameless, CastsDirectly, Marks, Eval,
      Truthy, SwapValue, Exec, Whole, Renamed, InStmt, InExpr, AfterForRound, EvalOption;
    RenamableStmtParts(st, x, y);
    RenamableLaterRounds(st, x, y);
    RenamedMarks(st, x, y);
    if st.init.Some? {
      RenamedMarks(st.init.value, x, y);
    }
    WholeShape(st, x, y);
    var st' := Whole(st, x, y);
    UnfoldLawful(m, x, y);
    if entry.Some? && (st.init.None? || entry.value !in Marks(st.init.value)) {
      ExecForAt(m, fuel, st, entry, s);
      ExecForAt(m, fuel, st', entry, t);
      RenamedExec(m, fuel, st.loopBody, entry, s, t, x, y);
      RenamedAfterForRound(
        m, fuel, st, Exec(m, fuel, st.loopBody, entry, s), Exec(m, fuel, st'.loopBody, entry, t), x, y);
    } else if st.init.Some? {
      RenamedForStart(m, fuel, st, entry, s, t, x, y);
    } else {
      ExecForRound(m, fuel, st, s);
      ExecForRound(m, fuel, st', t);
      RenamedEvalOption(m, st.forCondition, s, t, x, y);
      var c, c' := EvalOption(m, st.forCondition, s), EvalOption(m, st'.forCondition, t);
      SwappedPlaces(c.value, IntV(0), x, y);
      RenamedExec(m, fuel, st.loopBody, None, c.store, c'.store, x, y);
      RenamedAfterForRound(
        m, fuel, st, Exec(m, fuel, st.loopBody, None, c.store), Exec(m, fuel, st'.loopBody, None, c'.store), x, y);
    }
  }

  lemma {:induction false} RenamedForStart(
    m: Machine, fuel: nat, st: Stmt, entry: Option<Mark>, s: Store, t: Store, x: string, y: string)
    requires Lawful(m, x, y) && RenamableStmt(st, x, y) && Swapped(s, t, x, y) && st.For? && st.init.Some?
    requires entry.Some? ==> entry.value in Marks(st) && entry.value in Marks(st.init.value)
    ensures SwappedRun(Exec(m, fuel, st, entry, s), Exec(m, fuel, Whole(st, x, y), entry, t), x, y)
    decreases fuel, st, 2
  {
    hide RenamableStmt, RenamableStmts, RenamableCases, Renamable, Swapped, Lawful, Nameless, CastsDirectly, Marks, Eval,
      Truthy, SwapValue, Exec, Whole, Renamed, InStmt, InExpr, EvalOption;
    RenamableStmtParts(st, x, y);
    RenamableLaterRounds(st, x, y);
    RenamedMarks(st, x, y);
    RenamedMarks(st.init.value, x, y);
    WholeShape(st, x, y);
    var st' := Whole(st, x, y);
    UnfoldLawful(m, x, y);
    ExecForStart(m, fuel, st, entry, s);
    ExecForStart(m, fuel, st', entry, t);
    RenamedExec(m, fuel, st.init.value, entry, s, t, x, y);
    var r, q := Exec(m, fuel, st.init.value, entry, s), Exec(m, fuel, st'.init.value, entry, t);
    if r.Done? && r.outcome.Normal? && fuel > 0 {
      var later := For(None, st.forCondition, st.step, st.loopBody);
      RenamedExec(m, fuel - 1, later, None, r.store, q.store, x, y);
    }
  }

  lemma {:induction false} RenamedSwitch(
    m: Machine, fuel: nat, st: Stmt, entry: Option<Mark>, s: Store, t: Store, x: string, y: string)
    requires Lawful(m, x, y) && RenamableStmt(st, x, y) && Swapped(s, t, x, y) && st.Switch?
    requires entry.Some? ==> entry.value in Marks(st)
    ensures SwappedRun(Exec(m, fuel, st, entry, s), Exec(m, fuel, Whole(st, x, y), entry, t), x, y)
    decreases fuel, st, 3
  {
    hide RenamableStmt, RenamableStmts, RenamableCases, Renamable, Swapped, Lawful, Nameless, CastsDirectly, Marks, Eval,
      Truthy, SwapValue, Exec, Whole, Renamed, InStmt, InExpr, WholeCases, ExecCases, AsInt;
    RenamableStmtParts(st, x, y);
    RenamedMarks(st, x, y);
    WholeShape(st, x, y);
    var st' := Whole(st, x, y);
    UnfoldLawful(m, x, y);
    ExecSwitch(m, fuel, st, entry, s);
    ExecSwitch(m, fuel, st', entry, t);
    if entry.Some? {
      RenamedExecCases(m, fuel, st.cases, entry, s, t, x, y);
    } else {
      RenamedEval(m, st.condition, s, t, x, y);
      var c, c' := Eval(m, st.condition, s), Eval(m, st'.condition, t);
      SwappedPlaces(c.value, IntV(0), x, y);
      RenamedChoice(st.cases, AsInt(c.value), x, y);
      var k := ChosenCase(st.cases, AsInt(c.value));
      if k.Some? {
        RenamableCasesFrom(st.cases, k.value, x, y);
        WholeCasesFrom(st.cases, k.value, x, y);
        RenamedExecCases(m, fuel, st.cases[k.value..], None, c.store, c'.store, x, y);
      }
    }
  }

  lemma UnfoldLawful(m: Machine, x: string, y: string)
    requires Lawful(m, x, y)
    ensures Nameless(m, x, y) && CastsDirectly(m)
  {
  }

  lemma {:induction false} RenamedExecAll(
    m: Machine, fuel: nat, stmts: seq<Stmt>, entry: Option<Mark>, s: Store, t: Store, x: string, y: string)
    requires Lawful(m, x, y) && RenamableStmts(stmts, x, y) && Swapped(s, t, x, y)
    ensures SwappedRun(ExecAll(m, fuel, stmts, entry, s), ExecAll(m, fuel, WholeAll(stmts, x, y), entry, t), x, y)
    decreases fuel, stmts, 0
  {
    if stmts != [] {
      RenamableStmtsFront(stmts, x, y);
      WholeAllFront(stmts, x, y);
      RenamedMarks(stmts[0], x, y);
      var rs := WholeAll(stmts, x, y);
      assert rs[0] == Whole(stmts[0], x, y) && rs[1..] == WholeAll(stmts[1..], x, y);
      hide RenamableStmts, RenamableStmt, Swapped, Marks, Lawful, WholeAll, Whole, Exec;
      if entry.Some? && entry.value !in Marks(stmts[0]) {
        RenamedExecAll(m, fuel, stmts[1..], entry, s, t, x, y);
      } else {
        RenamedExec(m, fuel, stmts[0], entry, s, t, x, y);
        var r, q := Exec(m, fuel, stmts[0], entry, s), Exec(m, fuel, rs[0], entry, t);
        if r.Done? && r.outcome.Normal? {
          RenamedExecAll(m, fuel, stmts[1..], None, r.store, q.store, x, y);
        }
      }
    }
  }

  lemma {:induction false} RenamedExecCases(
    m: Machine, fuel: nat, cases: seq<SwitchCase>, entry: Option<Mark>, s: Store, t: Store, x: string, y: string)
    requires Lawful(m, x, y) && RenamableCases(cases, x, y) && Swapped(s, t, x, y)
    ensures SwappedRun(
      ExecCases(m, fuel, cases, entry, s), ExecCases(m, fuel, WholeCases(cases, x, y), entry, t), x, y)
    decreases fuel, cases, 0
  {
    if cases != [] {
      RenamableCasesFront(cases, x, y);
      WholeCasesFront(cases, x, y);
      RenamedMarksOfAll(cases[0].body, x, y);
      var rs := WholeCases(cases, x, y);
      assert rs[0] == WholeCase(cases[0], x, y) && rs[1..] == WholeCases(cases[1..], x, y);
      hide RenamableStmts, RenamableCases, Swapped, MarksOfAll, Lawful, WholeAll, WholeCases, ExecAll;
      if entry.Some? && entry.value !in MarksOfAll(cases[0].body) {
        RenamedExecCases(m, fuel, cases[1..], entry, s, t, x, y);
      } else {
        RenamedExecAll(m, fuel, cases[0].body, entry, s, t, x, y);
        var r, q := ExecAll(m, fuel, cases[0].body, entry, s), ExecAll(m, fuel, rs[0].body, entry, t);
        if r.Done? && r.outcome.Normal? {
          RenamedExecCases(m, fuel, cases[1..], None, r.store, q.store, x, y);
        }
      }
    }
  }

  /** The same for a whole body, through its gotos. */
  lemma {:induction false} RenamedFunction(
    m: Machine, fuel: nat, body: seq<Stmt>, entry: Option<Mark>, s: Store, t: Store, x: string, y: string)
    requires Lawful(m, x, y) && RenamableStmts(body, x, y) && Swapped(s, t, x, y)
    ensures SwappedRun(
      ExecFunction(m, fuel, body, entry, s), ExecFunction(m, fuel, WholeAll(body, x, y), entry, t), x, y)
    decreases fuel
  {
    hide Lawful, RenamableStmts, Swapped, WholeAll, ExecAll, MarksOfAll, SwapValue;
    RenamedExecAll(m, fuel, body, entry, s, t, x, y);
    RenamedMarksOfAll(body, x, y);
    var r, q := ExecAll(m, fuel, body, entry, s), ExecAll(m, fuel, WholeAll(body, x, y), entry, t);
    if r.Done? && r.outcome.Jumping? && NameMark(r.outcome.goal) in MarksOfAll(body) && fuel > 0 {
      RenamedFunction(m, fuel - 1, body, Some(NameMark(r.outcome.goal)), r.store, q.store, x, y);
    }
  }

  /** What the mutator makes of a body behaves as the body when no declaration mentions the variable. */
  lemma MutatedFunction(
    m: Machine, fuel: nat, body: seq<Stmt>, entry: Option<Mark>, s: Store, t: Store, x: string, y: string)
    requires Lawful(m, x, y) && RenamableStmts(body, x, y) && Swapped(s, t, x, y) && x != y
    requires !InStmts(DeclarationUsing(x), body)
    ensures SwappedRun(
      ExecFunction(m, fuel, body, entry, s), ExecFunction(m, fuel, RenamedStmts(body, x, y), entry, t), x, y)
  {
    MutatorIsWholeForAll(body, x, y);
    RenamedFunction(m, fuel, body, entry, s, t, x, y);
    hide Lawful, InStmts, Swapped, RenamedStmts, WholeAll, ExecFunction;
  }

  /** A declaration that reads the variable a. */
  function ReadingDeclaration(): Stmt {
    VariableDeclaration(CType("s32", false, 0), "b", Some(NewIdentifier("a")))
  }

  lemma ReadingDeclarationRuns(m: Machine, s: Store)
    ensures Exec(m, 0, ReadingDeclaration(), None, s) == Done(Normal, Put(s, Var("b"), Load(s, Var("a"))))
  {
    assert LvaluePlace(m, NewIdentifier("a"), s).loc == Var("a");
    hide Put, Load;
  }

  lemma OneIsSwapped()
    ensures Swapped(map[Var("a") := IntV(1)], map[Var("c") := IntV(1)], "a", "c")
  {
    forall l: Loc | SwapLoc(l, "a", "c") == Var("c") || l == Var("a")
      ensures l == Var("a") && SwapLoc(l, "a", "c") == Var("c")
    {
      SwapLocTwice(l, "a", "c");
    }
  }

  lemma ReadingDeclarationIsRenamable()
    ensures var st := ReadingDeclaration();
      && RenamableStmt(st, "a", "c") && InStmt(DeclarationUsing("a"), st) && RenamedStmt(st, "a", "c") == st
  {
  }

  lemma StoresDiffer(s: Store, t: Store)
    requires Load(s, Var("b")) == IntV(1) && Load(t, Var("b")) == IntV(0)
    ensures !Swapped(s, t, "a", "c")
  {
    assert SwapLoc(Var("b"), "a", "c") == Var("b");
    hide Load;
  }

  /** Without that condition renaming can change what is computed: the declaration goes on reading the old
      variable. */
  lemma DeclarationReadsTheOldName(m: Machine)
    ensures var st, s, t := ReadingDeclaration(), map[Var("a") := IntV(1)], map[Var("c") := IntV(1)];
      && RenamableStmt(st, "a", "c") && InStmt(DeclarationUsing("a"), st) && Swapped(s, t, "a", "c")
      && !SwappedRun(Exec(m, 0, st, None, s), Exec(m, 0, RenamedStmt(st, "a", "c"), None, t), "a", "c")
  {
    hide Exec, Swapped, RenamableStmt, InStmt;
    var st, s, t := ReadingDeclaration(), map[Var("a") := IntV(1)], map[Var("c") := IntV(1)];
    OneIsSwapped();
    ReadingDeclarationIsRenamable();
    ReadingDeclarationRuns(m, s);
    ReadingDeclarationRuns(m, t);
    StoresDiffer(Put(s, Var("b"), Load(s, Var("a"))), Put(t, Var("b"), Load(t, Var("a"))));
  }
}
