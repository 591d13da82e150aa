/** When the syntactic verdicts of core/c_ast_utils.cc guarantee that a variable keeps its value. */
module CUnchanged {
  import opened CAst
  import opened CSearch
  import opened CSemantics
  import opened Wrappers

  // ----- Parts of what holds no hit -----

  lemma ExprParts(q: Query, e: Expr)
    requires !InExpr(q, e)
    ensures !HitsExpr(q, e)
    ensures e.Unary? ==> !InExpr(q, e.operand)
    ensures e.Binary? ==> !InExpr(q, e.lhs) && !InExpr(q, e.rhs)
    ensures e.Assignment? ==> (SkipsLhs(q, e) || !InExpr(q, e.lhs)) && !InExpr(q, e.rhs)
    ensures e.Call? ==> !InExpr(q, e.callee) && !InExprs(q, e.arguments)
    ensures e.Cast? ==> !InExpr(q, e.operand)
    ensures e.MemberAccess? ==> !InExpr(q, e.object')
    ensures e.ArrayIndex? ==> !InExpr(q, e.array') && !InExpr(q, e.index)
    ensures e.Ternary? ==> !InExpr(q, e.condition) && !InExpr(q, e.trueExpression) && !InExpr(q, e.falseExpression)
  {
    hide HitsExpr, SkipsLhs;
  }

  /** Nothing in the expression calls, writes x, or takes the address of x or of a part of it. */
  ghost predicate Leaves(e: Expr, x: string) {
    && !InExpr(SomeCall(false), e) && !InExpr(Modification(x), e) && !InExpr(AddressOf(x, false), e)
    && !InExpr(InnerAccess(x), e)
  }

  lemma LeavesParts(e: Expr, x: string)
    requires Leaves(e, x)
    ensures e.Unary? ==> Leaves(e.operand, x)
    ensures e.Binary? ==> Leaves(e.lhs, x) && Leaves(e.rhs, x)
    ensures e.Assignment? ==> Leaves(e.lhs, x) && Leaves(e.rhs, x) && !PlacedInside(e.lhs, x)
    ensures e.Unary? && (IsIncDec(e.op) || HasAmpersand(e.op)) ==> !PlacedInside(e.operand, x)
    ensures !e.Call?
    ensures e.Cast? ==> Leaves(e.operand, x)
    ensures e.MemberAccess? ==> Leaves(e.object', x)
    ensures e.ArrayIndex? ==> Leaves(e.array', x) && Leaves(e.index, x)
    ensures e.Ternary? ==> Leaves(e.condition, x) && Leaves(e.trueExpression, x) && Leaves(e.falseExpression, x)
  {
    ExprParts(SomeCall(false), e);
    ExprParts(Modification(x), e);
    ExprParts(AddressOf(x, false), e);
    ExprParts(InnerAccess(x), e);
    hide InExpr, InExprs;
  }

  // ----- Pointers into a variable -----

  predicate RootedAt(l: Loc, x: string) {
    match l
    case Var(name) => name == x
    case Cell(_) => false
    case Field(base, _) => RootedAt(base, x)
    case Element(base, _) => RootedAt(base, x)
  }

  predicate PointsInto(v: Value, x: string) { v.PtrV? && RootedAt(v.target, x) }

  /** No stored value points into x. */
  ghost predicate Clean(s: Store, x: string) {
    forall l :: !PointsInto(Load(s, l), x)
  }

  /** Operators, casts and literals do not make pointers into x out of other values. */
  ghost predicate Unforgeable(m: Machine, x: string) {
    && (forall op: string, a: Value :: PointsInto(m.unary(op, a), x) ==> PointsInto(a, x))
    && (forall op: string, a: Value, b: Value ::
         PointsInto(m.binary(op, a, b), x) ==> PointsInto(a, x) || PointsInto(b, x))
    && (forall t: CType, a: Value :: PointsInto(m.cast(t, a), x) ==> PointsInto(a, x))
    && (forall r: real :: !PointsInto(m.number(r), x))
    && (forall t: string :: !PointsInto(m.text(t), x))
  }

  /** t still holds no pointer into x, and has in x what s has. */
  ghost predicate Quiet(s: Store, t: Store, x: string) {
    Clean(t, x) && forall l :: RootedAt(l, x) ==> Load(t, l) == Load(s, l)
  }

  lemma QuietThen(s: Store, t: Store, u: Store, x: string)
    requires Quiet(s, t, x) && Quiet(t, u, x)
    ensures Quiet(s, u, x)
  {
  }

  lemma QuietPut(s: Store, t: Store, l: Loc, v: Value, x: string)
    requires Quiet(s, t, x) && !RootedAt(l, x) && !PointsInto(v, x)
    ensures Quiet(s, Put(t, l, v), x)
  {
    forall k ensures Load(Put(t, l, v), k) == if k == l then v else Load(t, k) {
    }
    hide RootedAt, Load, Put;
  }

  lemma LoadIsClean(s: Store, l: Loc, x: string)
    requires Clean(s, x)
    ensures !PointsInto(Load(s, l), x)
  {
  }

  lemma PointeeOutside(v: Value, i: Value, x: string)
    requires !PointsInto(v, x)
    ensures !RootedAt(Pointee(v), x) && !RootedAt(ElementOf(v, i), x)
  {
  }

  ghost predicate QuietEval(s: Store, r: Evaluated, x: string) {
    Quiet(s, r.store, x) && !PointsInto(r.value, x)
  }

  ghost predicate QuietPlace(s: Store, e: Expr, r: Placed, x: string) {
    Quiet(s, r.store, x) && (RootedAt(r.loc, x) ==> PlacedInside(e, x))
  }

  lemma {:induction false} LeavesLvalue(m: Machine, e: Expr, s: Store, x: string)
    requires Unforgeable(m, x) && Leaves(e, x) && Clean(s, x) && IsLvalue(e)
    ensures QuietPlace(s, e, LvaluePlace(m, e, s), x)
    decreases e, 1
  {
    LeavesParts(e, x);
    hide Leaves, Clean, RootedAt;
    match e
    case Identifier(name, _, _) =>
      VarRoot(name, x);
      QuietStart(s, x);
    case Unary(op, operand, _) =>
      if IsReinterpretation(op) {
        LeavesPlace(m, operand, s, x);
      } else {
        LeavesEval(m, operand, s, x);
        var v := Eval(m, operand, s).value;
        assert !PointsInto(m.unary(op, v), x);
        PointeeOutside(v, IntV(0), x);
        PointeeOutside(m.unary(op, v), IntV(0), x);
      }
    case MemberAccess(object', memberName, isArrow) =>
      if isArrow {
        LeavesEval(m, object', s, x);
        PointeeOutside(Eval(m, object', s).value, IntV(0), x);
        FieldRoot(Pointee(Eval(m, object', s).value), memberName, x);
      } else {
        LeavesPlace(m, object', s, x);
        FieldRoot(Place(m, object', s).loc, memberName, x);
      }
    case ArrayIndex(array', index) =>
      LeavesEval(m, array', s, x);
      var a := Eval(m, array', s);
      QuietIsClean(s, a.store, x);
      LeavesEval(m, index, a.store, x);
      var i := Eval(m, index, a.store);
      QuietThen(s, a.store, i.store, x);
      PointeeOutside(a.value, i.value, x);
  }

  lemma VarRoot(name: string, x: string)
    ensures RootedAt(Var(name), x) <==> name == x
  {
  }

  lemma FieldRoot(l: Loc, f: string, x: string)
    ensures RootedAt(Field(l, f), x) <==> RootedAt(l, x)
  {
  }

  lemma QuietStart(s: Store, x: string)
    requires Clean(s, x)
    ensures Quiet(s, s, x)
  {
  }

  lemma QuietIsClean(s: Store, t: Store, x: string)
    requires Quiet(s, t, x)
    ensures Clean(t, x)
  {
  }

  lemma {:induction false} LeavesPlace(m: Machine, e: Expr, s: Store, x: string)
    requires Unforgeable(m, x) && Leaves(e, x) && Clean(s, x)
    ensures QuietPlace(s, e, Place(m, e, s), x)
    decreases e, 3
  {
    hide Leaves, Clean, RootedAt, PlacedInside;
    if IsLvalue(e) {
      LeavesLvalue(m, e, s, x);
    } else {
      LeavesEval(m, e, s, x);
      PointeeOutside(Eval(m, e, s).value, IntV(0), x);
    }
  }

  lemma {:induction false} LeavesEval(m: Machine, e: Expr, s: Store, x: string)
    requires Unforgeable(m, x) && Leaves(e, x) && Clean(s, x)
    ensures QuietEval(s, Eval(m, e, s), x)
    decreases e, 2
  {
    hide Leaves, Clean, RootedAt, PlacedInside;
    if IsLvalue(e) {
      LeavesLvalue(m, e, s, x);
      var p := LvaluePlace(m, e, s);
      QuietIsClean(s, p.store, x);
      LoadIsClean(p.store, p.loc, x);
      assert e.Unary? ==> PointsInto(m.unary(e.op, Load(p.store, p.loc)), x) ==> PointsInto(Load(p.store, p.loc), x);
    } else {
      LeavesOther(m, e, s, x);
    }
  }

  lemma {:induction false} LeavesOther(m: Machine, e: Expr, s: Store, x: string)
    requires Unforgeable(m, x) && Leaves(e, x) && Clean(s, x) && !IsLvalue(e)
    ensures QuietEval(s, Eval(m, e, s), x)
    decreases e, 1
  {
    LeavesParts(e, x);
    QuietStart(s, x);
    hide Leaves, Clean, RootedAt, PlacedInside, Quiet, IsReinterpretation, IsDereference;
    match e
    case IntegerLiteral(_, _, _) =>
    case FloatLiteral(_, _) =>
    case StringLiteral(_) =>
    case Unary(op, operand, _) =>
      LeavesUnary(m, e, s, x);
    case Binary(op, lhs, rhs) =>
      LeavesBinary(m, e, s, x);
    case Assignment(op, lhs, rhs) =>
      LeavesAssignment(m, e, s, x);
    case Cast(_, operand) =>
      LeavesEval(m, operand, s, x);
    case Ternary(c, t, f) =>
      LeavesEval(m, c, s, x);
      var a := Eval(m, c, s);
      QuietIsClean(s, a.store, x);
      LeavesEval(m, t, a.store, x);
      LeavesEval(m, f, a.store, x);
      QuietThen(s, a.store, (if Truthy(a.value) then Eval(m, t, a.store) else Eval(m, f, a.store)).store, x);
    case _ =>
  }

  lemma {:induction false} LeavesUnary(m: Machine, e: Expr, s: Store, x: string)
    requires Unforgeable(m, x) && Leaves(e, x) && Clean(s, x) && !IsLvalue(e) && e.Unary?
    ensures QuietEval(s, Eval(m, e, s), x)
    decreases e, 0
  {
    LeavesParts(e, x);
    hide Leaves, Clean, RootedAt, PlacedInside;
    if IsIncDec(e.op) {
      LeavesPlace(m, e.operand, s, x);
      var p := Place(m, e.operand, s);
      var before := Load(p.store, p.loc);
      QuietIsClean(s, p.store, x);
      LoadIsClean(p.store, p.loc, x);
      assert PointsInto(m.unary(e.op, before), x) ==> PointsInto(before, x);
      QuietPut(s, p.store, p.loc, m.unary(e.op, before), x);
    } else if HasAmpersand(e.op) {
      LeavesPlace(m, e.operand, s, x);
    } else {
      LeavesEval(m, e.operand, s, x);
      var v := Eval(m, e.operand, s).value;
      assert PointsInto(m.unary(e.op, v), x) ==> PointsInto(v, x);
    }
    hide Quiet;
  }

  lemma {:induction false} LeavesBinary(m: Machine, e: Expr, s: Store, x: string)
    requires Unforgeable(m, x) && Leaves(e, x) && Clean(s, x) && e.Binary?
    ensures QuietEval(s, Eval(m, e, s), x)
    decreases e, 0
  {
    LeavesParts(e, x);
    hide Leaves, Clean, RootedAt;
    LeavesEval(m, e.lhs, s, x);
    var a := Eval(m, e.lhs, s);
    QuietIsClean(s, a.store, x);
    LeavesEval(m, e.rhs, a.store, x);
    var b := Eval(m, e.rhs, a.store);
    QuietThen(s, a.store, b.store, x);
    assert PointsInto(m.binary(e.op, a.value, b.value), x) ==> PointsInto(a.value, x) || PointsInto(b.value, x);
    hide Quiet;
  }

  lemma {:induction false} LeavesAssignment(m: Machine, e: Expr, s: Store, x: string)
    requires Unforgeable(m, x) && Leaves(e, x) && Clean(s, x) && e.Assignment?
    ensures QuietEval(s, Eval(m, e, s), x)
    decreases e, 0
  {
    LeavesParts(e, x);
    hide Leaves, Clean, RootedAt, PlacedInside;
    LeavesPlace(m, e.lhs, s, x);
    var p := Place(m, e.lhs, s);
    QuietIsClean(s, p.store, x);
    LeavesEval(m, e.rhs, p.store, x);
    var v := Eval(m, e.rhs, p.store);
    QuietThen(s, p.store, v.store, x);
    QuietIsClean(s, v.store, x);
    var before := Load(v.store, p.loc);
    LoadIsClean(v.store, p.loc, x);
    assert PointsInto(m.binary(e.op, before, v.value), x) ==> PointsInto(before, x) || PointsInto(v.value, x);
    QuietPut(s, v.store, p.loc, AssignedValue(m, e.op, before, v.value), x);
    hide Quiet;
  }

  // ----- Statements -----

  lemma StmtParts(q: Query, st: Stmt)
    requires !InStmt(q, st)
    ensures !HitsStmt(q, st)
    ensures st.Compound? ==> !InStmts(q, st.statements)
    ensures st.ExpressionStatement? ==> !InExpr(q, st.expression)
    ensures st.VariableDeclaration? ==> !InOption(q, st.initializer)
    ensures st.If? ==> !InExpr(q, st.condition) && !InStmt(q, st.thenBranch) &&
                       (st.elseBranch.Some? ==> !InStmt(q, st.elseBranch.value))
    ensures st.While? ==> !InExpr(q, st.condition) && !InStmt(q, st.loopBody)
    ensures st.DoWhile? ==> !InExpr(q, st.condition) && !InStmt(q, st.loopBody)
    ensures st.For? ==> (st.init.Some? ==> !InStmt(q, st.init.value)) && !InOption(q, st.forCondition) &&
                        !InOption(q, st.step) && !InStmt(q, st.loopBody)
    ensures st.Return? ==> !InOption(q, st.returnValue)
    ensures st.Switch? ==> !InExpr(q, st.condition) && !InCases(q, st.cases)
  {
    hide HitsStmt, InExpr, InOption;
  }

  lemma {:induction false} InStmtsFront(q: Query, stmts: seq<Stmt>)
    requires stmts != []
    ensures InStmts(q, stmts) <==> InStmt(q, stmts[0]) || InStmts(q, stmts[1..])
  {
    hide InStmt;
    var n := |stmts| - 1;
    if n > 0 {
      InStmtsFront(q, stmts[..n]);
      assert stmts[..n][1..] == stmts[1..][..n - 1];
    } else {
      assert stmts[..0] == [] && stmts[1..] == [];
    }
  }

  lemma {:induction false} InCasesFront(q: Query, cases: seq<SwitchCase>)
    requires cases != []
    ensures InCases(q, cases) <==> InStmts(q, cases[0].body) || InCases(q, cases[1..])
  {
    hide InStmts;
    var n := |cases| - 1;
    if n > 0 {
      InCasesFront(q, cases[..n]);
      assert cases[..n][1..] == cases[1..][..n - 1];
    } else {
      assert cases[..0] == [] && cases[1..] == [];
    }
  }

  lemma {:induction false} InCasesFrom(q: Query, cases: seq<SwitchCase>, k: nat)
    requires k <= |cases| && !InCases(q, cases)
    ensures !InCases(q, cases[k..])
  {
    hide InStmts;
    if k == 0 {
      assert cases[0..] == cases;
    } else {
      InCasesFrom(q, cases, k - 1);
      InCasesFront(q, cases[k - 1..]);
      assert cases[k - 1..][1..] == cases[k..];
    }
  }

  /** Nothing in the statement calls, writes or declares x, or takes the address of x or of a part of
      it. */
  ghost predicate LeavesStmt(st: Stmt, x: string) {
    && !InStmt(SomeCall(false), st) && !InStmt(Modification(x), st) && !InStmt(AddressOf(x, false), st)
    && !InStmt(InnerAccess(x), st) && !InStmt(Declaration(x), st)
  }

  ghost predicate LeavesAll(stmts: seq<Stmt>, x: string) {
    && !InStmts(SomeCall(false), stmts) && !InStmts(Modification(x), stmts) && !InStmts(AddressOf(x, false), stmts)
    && !InStmts(InnerAccess(x), stmts) && !InStmts(Declaration(x), stmts)
  }

  ghost predicate LeavesCases(cases: seq<SwitchCase>, x: string) {
    && !InCases(SomeCall(false), cases) && !InCases(Modification(x), cases) && !InCases(AddressOf(x, false), cases)
    && !InCases(InnerAccess(x), cases) && !InCases(Declaration(x), cases)
  }

  ghost predicate LeavesOption(e: Option<Expr>, x: string) { e.Some? ==> Leaves(e.value, x) }

  lemma LeavesStmtParts(st: Stmt, x: string)
    requires LeavesStmt(st, x)
    ensures st.Compound? ==> LeavesAll(st.statements, x)
    ensures st.ExpressionStatement? ==> Leaves(st.expression, x)
    ensures st.VariableDeclaration? ==> LeavesOption(st.initializer, x) && st.declaredName != x
    ensures st.If? ==> Leaves(st.condition, x) && LeavesStmt(st.thenBranch, x) &&
                       (st.elseBranch.Some? ==> LeavesStmt(st.elseBranch.value, x))
    ensures st.While? ==> Leaves(st.condition, x) && LeavesStmt(st.loopBody, x)
    ensures st.DoWhile? ==> Leaves(st.condition, x) && LeavesStmt(st.loopBody, x)
    ensures st.For? ==> (st.init.Some? ==> LeavesStmt(st.init.value, x)) && LeavesOption(st.forCondition, x) &&
                        LeavesOption(st.step, x) && LeavesStmt(st.loopBody, x)
    ensures st.Return? ==> LeavesOption(st.returnValue, x)
    ensures st.Switch? ==> Leaves(st.condition, x) && LeavesCases(st.cases, x)
  {
    StmtParts(SomeCall(false), st);
    StmtParts(Modification(x), st);
    StmtParts(AddressOf(x, false), st);
    StmtParts(InnerAccess(x), st);
    StmtParts(Declaration(x), st);
    hide InExpr, InStmt, InStmts, InCases;
  }

  lemma LeavesAllFront(stmts: seq<Stmt>, x: string)
    requires LeavesAll(stmts, x) && stmts != []
    ensures LeavesStmt(stmts[0], x) && LeavesAll(stmts[1..], x)
  {
    InStmtsFront(SomeCall(false), stmts);
    InStmtsFront(Modification(x), stmts);
    InStmtsFront(AddressOf(x, false), stmts);
    InStmtsFront(InnerAccess(x), stmts);
    InStmtsFront(Declaration(x), stmts);
    hide InStmt, InStmts;
  }

  lemma LeavesCasesFront(cases: seq<SwitchCase>, x: string)
    requires LeavesCases(cases, x) && cases != []
    ensures LeavesAll(cases[0].body, x) && LeavesCases(cases[1..], x)
  {
    InCasesFront(SomeCall(false), cases);
    InCasesFront(Modification(x), cases);
    InCasesFront(AddressOf(x, false), cases);
    InCasesFront(InnerAccess(x), cases);
    InCasesFront(Declaration(x), cases);
    hide InStmts, InCases;
  }

  lemma LeavesCasesFrom(cases: seq<SwitchCase>, k: nat, x: string)
    requires LeavesCases(cases, x) && k <= |cases|
    ensures LeavesCases(cases[k..], x)
  {
    InCasesFrom(SomeCall(false), cases, k);
    InCasesFrom(Modification(x), cases, k);
    InCasesFrom(AddressOf(x, false), cases, k);
    InCasesFrom(InnerAccess(x), cases, k);
    InCasesFrom(Declaration(x), cases, k);
    hide InCases;
  }

  ghost predicate QuietRun(s: Store, r: Run, x: string) { r.Done? ==> Quiet(s, r.store, x) }

  lemma QuietRunThen(s: Store, t: Store, r: Run, x: string)
    requires Quiet(s, t, x) && QuietRun(t, r, x)
    ensures QuietRun(s, r, x)
  {
    if r.Done? {
      QuietThen(s, t, r.store, x);
    }
    hide Quiet;
  }

  /** A call-free statement that neither writes nor declares x, nor takes its address or that of a part
      of it, leaves x unchanged on every run. */
  lemma {:induction false} LeavesExec(
    m: Machine, fuel: nat, st: Stmt, entry: Option<Mark>, s: Store, x: string)
    requires Unforgeable(m, x) && LeavesStmt(st, x) && Clean(s, x)
    ensures QuietRun(s, Exec(m, fuel, st, entry, s), x)
    decreases fuel, st, 4
  {
    QuietStart(s, x);
    if entry.Some? && entry.value !in Marks(st) {
      return;
    }
    LeavesStmtParts(st, x);
    hide LeavesStmt, Leaves, Clean, Quiet, Unforgeable, Marks;
    match st
    case Compound(statements) =>
      LeavesExecAll(m, fuel, statements, entry, s, x);
    case ExpressionStatement(e) =>
      LeavesEval(m, e, s, x);
    case VariableDeclaration(_, name, init) =>
      if init.Some? {
        LeavesEval(m, init.value, s, x);
        var v := Eval(m, init.value, s);
        VarRoot(name, x);
        QuietPut(s, v.store, Var(name), v.value, x);
      }
    case If(_, _, _) =>
      LeavesIf(m, fuel, st, entry, s, x);
    case While(_, _) =>
      LeavesWhile(m, fuel, st, entry, s, x);
    case DoWhile(_, _) =>
      LeavesDoWhile(m, fuel, st, entry, s, x);
    case For(_, _, _, _) =>
      LeavesFor(m, fuel, st, entry, s, x);
    case Return(value) =>
      if value.Some? {
        LeavesEval(m, value.value, s, x);
      }
    case Switch(_, _) =>
      LeavesSwitch(m, fuel, st, entry, s, x);
    case _ =>
  }

  lemma {:induction false} LeavesIf(m: Machine, fuel: nat, st: Stmt, entry: Option<Mark>, s: Store, x: string)
    requires Unforgeable(m, x) && LeavesStmt(st, x) && Clean(s, x) && st.If?
    requires entry.Some? ==> entry.value in Marks(st)
    ensures QuietRun(s, Exec(m, fuel, st, entry, s), x)
    decreases fuel, st, 3
  {
    LeavesStmtParts(st, x);
    QuietStart(s, x);
    hide LeavesStmt, Leaves, Clean, Quiet, Unforgeable, Marks;
    if entry.Some? {
      LeavesExec(m, fuel, st.thenBranch, entry, s, x);
      if st.elseBranch.Some? {
        LeavesExec(m, fuel, st.elseBranch.value, entry, s, x);
      }
    } else {
      LeavesEval(m, st.condition, s, x);
      var c := Eval(m, st.condition, s);
      QuietIsClean(s, c.store, x);
      if Truthy(c.value) {
        LeavesExec(m, fuel, st.thenBranch, None, c.store, x);
        QuietRunThen(s, c.store, Exec(m, fuel, st.thenBranch, None, c.store), x);
      } else if st.elseBranch.Some? {
        LeavesExec(m, fuel, st.elseBranch.value, None, c.store, x);
        QuietRunThen(s, c.store, Exec(m, fuel, st.elseBranch.value, None, c.store), x);
      }
    }
  }

  lemma {:induction false} LeavesAfterRound(m: Machine, fuel: nat, st: Stmt, s: Store, r: Run, x: string)
    requires Unforgeable(m, x) && LeavesStmt(st, x) && (st.While? || st.DoWhile?) && QuietRun(s, r, x)
    ensures QuietRun(s, AfterRound(m, fuel, st, r), x)
    decreases fuel, st, 2
  {
    hide LeavesStmt, Clean, Quiet, Unforgeable;
    if r.Done? && (r.outcome.Normal? || r.outcome.Continued?) && fuel > 0 {
      QuietIsClean(s, r.store, x);
      LeavesExec(m, fuel - 1, st, None, r.store, x);
      QuietRunThen(s, r.store, Exec(m, fuel - 1, st, None, r.store), x);
    }
  }

  lemma {:induction false} LeavesWhile(m: Machine, fuel: nat, st: Stmt, entry: Option<Mark>, s: Store, x: string)
    requires Unforgeable(m, x) && LeavesStmt(st, x) && Clean(s, x) && st.While?
    requires entry.Some? ==> entry.value in Marks(st)
    ensures QuietRun(s, Exec(m, fuel, st, entry, s), x)
    decreases fuel, st, 3
  {
    LeavesStmtParts(st, x);
    hide LeavesStmt, Leaves, Clean, Quiet, Unforgeable, Marks;
    if entry.Some? {
      LeavesExec(m, fuel, st.loopBody, entry, s, x);
      LeavesAfterRound(m, fuel, st, s, Exec(m, fuel, st.loopBody, entry, s), x);
    } else {
      LeavesEval(m, st.condition, s, x);
      var c := Eval(m, st.condition, s);
      QuietIsClean(s, c.store, x);
      LeavesExec(m, fuel, st.loopBody, None, c.store, x);
      QuietRunThen(s, c.store, Exec(m, fuel, st.loopBody, None, c.store), x);
      LeavesAfterRound(m, fuel, st, s, Exec(m, fuel, st.loopBody, None, c.store), x);
    }
  }

  lemma {:induction false} LeavesDoWhile(m: Machine, fuel: nat, st: Stmt, entry: Option<Mark>, s: Store, x: string)
    requires Unforgeable(m, x) && LeavesStmt(st, x) && Clean(s, x) && st.DoWhile?
    requires entry.Some? ==> entry.value in Marks(st)
    ensures QuietRun(s, Exec(m, fuel, st, entry, s), x)
    decreases fuel, st, 3
  {
    LeavesStmtParts(st, x);
    hide LeavesStmt, Leaves, Clean, Quiet, Unforgeable, Marks;
    LeavesExec(m, fuel, st.loopBody, entry, s, x);
    var r := Exec(m, fuel, st.loopBody, entry, s);
    if r.Done? && (r.outcome.Normal? || r.outcome.Continued?) {
      QuietIsClean(s, r.store, x);
      LeavesEval(m, st.condition, r.store, x);
      var c := Eval(m, st.condition, r.store);
      QuietThen(s, r.store, c.store, x);
      LeavesAfterRound(m, fuel, st, s, Done(Normal, c.store), x);
    }
  }

  lemma LeavesLaterRounds(st: Stmt, x: string)
    requires LeavesStmt(st, x) && st.For?
    ensures LeavesStmt(For(None, st.forCondition, st.step, st.loopBody), x)
  {
    hide InExpr;
  }

  lemma {:induction false} LeavesAfterForRound(m: Machine, fuel: nat, st: Stmt, s: Store, r: Run, x: string)
    requires Unforgeable(m, x) && LeavesStmt(st, x) && st.For? && QuietRun(s, r, x)
    ensures QuietRun(s, AfterForRound(m, fuel, st, r), x)
    decreases fuel, st, 2
  {
    LeavesStmtParts(st, x);
    LeavesLaterRounds(st, x);
    hide LeavesStmt, Leaves, Clean, Quiet, Unforgeable;
    if r.Done? && (r.outcome.Normal? || r.outcome.Continued?) && fuel > 0 {
      QuietIsClean(s, r.store, x);
      var t := r.store;
      if st.step.Some? {
        LeavesEval(m, st.step.value, r.store, x);
        t := Eval(m, st.step.value, r.store).store;
        QuietThen(s, r.store, t, x);
      }
      QuietIsClean(s, t, x);
      var later := For(None, st.forCondition, st.step, st.loopBody);
      LeavesExec(m, fuel - 1, later, None, t, x);
      QuietRunThen(s, t, Exec(m, fuel - 1, later, None, t), x);
    }
  }

  lemma {:induction false} LeavesFor(m: Machine, fuel: nat, st: Stmt, entry: Option<Mark>, s: Store, x: string)
    requires Unforgeable(m, x) && LeavesStmt(st, x) && Clean(s, x) && st.For?
    requires entry.Some? ==> entry.value in Marks(st)
    ensures QuietRun(s, Exec(m, fuel, st, entry, s), x)
    decreases fuel, st, 3
  {
    LeavesStmtParts(st, x);
    LeavesLaterRounds(st, x);
    QuietStart(s, x);
    hide LeavesStmt, Leaves, Clean, Quiet, Unforgeable, Marks;
    if entry.Some? && (st.init.None? || entry.value !in Marks(st.init.value)) {
      LeavesExec(m, fuel, st.loopBody, entry, s, x);
      LeavesAfterForRound(m, fuel, st, s, Exec(m, fuel, st.loopBody, entry, s), x);
    } else if st.init.Some? {
      LeavesExec(m, fuel, st.init.value, entry, s, x);
      var r := Exec(m, fuel, st.init.value, entry, s);
      if r.Done? && r.outcome.Normal? && fuel > 0 {
        QuietIsClean(s, r.store, x);
        var later := For(None, st.forCondition, st.step, st.loopBody);
        LeavesExec(m, fuel - 1, later, None, r.store, x);
        QuietRunThen(s, r.store, Exec(m, fuel - 1, later, None, r.store), x);
      }
    } else {
      if st.forCondition.Some? {
        LeavesEval(m, st.forCondition.value, s, x);
      }
      var c := EvalOption(m, st.forCondition, s);
      QuietIsClean(s, c.store, x);
      LeavesExec(m, fuel, st.loopBody, None, c.store, x);
      QuietRunThen(s, c.store, Exec(m, fuel, st.loopBody, None, c.store), x);
      LeavesAfterForRound(m, fuel, st, s, Exec(m, fuel, st.loopBody, None, c.store), x);
    }
  }

  lemma {:induction false} LeavesSwitch(m: Machine, fuel: nat, st: Stmt, entry: Option<Mark>, s: Store, x: string)
    requires Unforgeable(m, x) && LeavesStmt(st, x) && Clean(s, x) && st.Switch?
    requires entry.Some? ==> entry.value in Marks(st)
    ensures QuietRun(s, Exec(m, fuel, st, entry, s), x)
    decreases fuel, st, 3
  {
    LeavesStmtParts(st, x);
    hide LeavesStmt, Leaves, Clean, Quiet, Unforgeable, Marks, LeavesCases;
    if entry.Some? {
      LeavesExecCases(m, fuel, st.cases, entry, s, x);
    } else {
      LeavesEval(m, st.condition, s, x);
      var c := Eval(m, st.condition, s);
      QuietIsClean(s, c.store, x);
      var k := ChosenCase(st.cases, AsInt(c.value));
      if k.Some? {
        LeavesCasesFrom(st.cases, k.value, x);
        LeavesExecCases(m, fuel, st.cases[k.value..], None, c.store, x);
        QuietRunThen(s, c.store, ExecCases(m, fuel, st.cases[k.value..], None, c.store), x);
      }
    }
  }

  lemma {:induction false} LeavesExecAll(
    m: Machine, fuel: nat, stmts: seq<Stmt>, entry: Option<Mark>, s: Store, x: string)
    requires Unforgeable(m, x) && LeavesAll(stmts, x) && Clean(s, x)
    ensures QuietRun(s, ExecAll(m, fuel, stmts, entry, s), x)
    decreases fuel, stmts, 0
  {
    QuietStart(s, x);
    if stmts != [] {
      LeavesAllFront(stmts, x);
      hide LeavesAll, LeavesStmt, Clean, Quiet, Unforgeable, Marks;
      if entry.Some? && entry.value !in Marks(stmts[0]) {
        LeavesExecAll(m, fuel, stmts[1..], entry, s, x);
      } else {
        LeavesExec(m, fuel, stmts[0], entry, s, x);
        var r := Exec(m, fuel, stmts[0], entry, s);
        if r.Done? && r.outcome.Normal? {
          QuietIsClean(s, r.store, x);
          LeavesExecAll(m, fuel, stmts[1..], None, r.store, x);
          QuietRunThen(s, r.store, ExecAll(m, fuel, stmts[1..], None, r.store), x);
        }
      }
    }
  }

  lemma {:induction false} LeavesExecCases(
    m: Machine, fuel: nat, cases: seq<SwitchCase>, entry: Option<Mark>, s: Store, x: string)
    requires Unforgeable(m, x) && LeavesCases(cases, x) && Clean(s, x)
    ensures QuietRun(s, ExecCases(m, fuel, cases, entry, s), x)
    decreases fuel, cases, 0
  {
    QuietStart(s, x);
    if cases != [] {
      LeavesCasesFront(cases, x);
      hide LeavesCases, LeavesAll, Clean, Quiet, Unforgeable, MarksOfAll;
      if entry.Some? && entry.value !in MarksOfAll(cases[0].body) {
        LeavesExecCases(m, fuel, cases[1..], entry, s, x);
      } else {
        LeavesExecAll(m, fuel, cases[0].body, entry, s, x);
        var r := ExecAll(m, fuel, cases[0].body, entry, s);
        if r.Done? && r.outcome.Normal? {
          QuietIsClean(s, r.store, x);
          LeavesExecCases(m, fuel, cases[1..], None, r.store, x);
          QuietRunThen(s, r.store, ExecCases(m, fuel, cases[1..], None, r.store), x);
        }
      }
    }
  }

  /** Also through any gotos of a whole body, x has at the end what it had at the start. */
  lemma {:induction false} LeavesFunction(
    m: Machine, fuel: nat, body: seq<Stmt>, entry: Option<Mark>, s: Store, x: string)
    requires Unforgeable(m, x) && LeavesAll(body, x) && Clean(s, x)
    ensures var r := ExecFunction(m, fuel, body, entry, s);
            r.Done? ==> Load(r.store, Var(x)) == Load(s, Var(x)) && Quiet(s, r.store, x)
    decreases fuel
  {
    LeavesExecAll(m, fuel, body, entry, s, x);
    var r := ExecAll(m, fuel, body, entry, s);
    VarRoot(x, x);
    hide LeavesAll, Unforgeable, RootedAt;
    if r.Done? && r.outcome.Jumping? && NameMark(r.outcome.goal) in MarksOfAll(body) && fuel > 0 {
      LeavesFunction(m, fuel - 1, body, Some(NameMark(r.outcome.goal)), r.store, x);
    }
  }

  /** The place of an expression placed inside x is part of x, whatever the store. */
  lemma {:induction false} InsideIsRooted(m: Machine, e: Expr, s: Store, x: string)
    requires PlacedInside(e, x)
    ensures IsLvalue(e) && RootedAt(LvaluePlace(m, e, s).loc, x) && RootedAt(Place(m, e, s).loc, x)
  {
    match e
    case Identifier(name, _, _) =>
    case MemberAccess(object', memberName, _) =>
      InsideIsRooted(m, object', s, x);
      FieldRoot(Place(m, object', s).loc, memberName, x);
    case Unary(_, operand, _) =>
      InsideIsRooted(m, operand, s, x);
  }

  /** The place that an assignment or an increment writes. */
  function Written(e: Expr): Expr
    requires e.Assignment? || e.Unary?
  {
    if e.Assignment? then e.lhs else e.operand
  }

  /** A write lands in x exactly when it is reported as a modification of x or writes a part of x: the latter
      are the writes that the verdict misses. */
  lemma WritesExactly(m: Machine, e: Expr, s: Store, x: string)
    requires e.Assignment? || (e.Unary? && IsIncDec(e.op))
    requires Unforgeable(m, x) && Leaves(Written(e), x) && Clean(s, x)
    ensures RootedAt(Place(m, Written(e), s).loc, x) <==> HitsExpr(Modification(x), e) || HitsExpr(InnerAccess(x), e)
  {
    var t := Written(e);
    LeavesPlace(m, t, s, x);
    if PlacedInside(t, x) {
      InsideIsRooted(m, t, s, x);
    }
    assert PlacedInside(t, x) <==> IsName(t, x) || (!t.Identifier? && PlacedInside(t, x));
    hide Leaves, Unforgeable, Clean, Place;
  }

  /** Taking an address points into x exactly when it is reported as the address of x or takes that of a part of
      x: the latter are the addresses that the verdict misses. */
  lemma AddressesExactly(m: Machine, e: Expr, s: Store, x: string)
    requires e.Unary? && HasAmpersand(e.op) && !IsLvalue(e) && !IsIncDec(e.op)
    requires Unforgeable(m, x) && Leaves(e.operand, x) && Clean(s, x)
    ensures PointsInto(Eval(m, e, s).value, x) <==> HitsExpr(AddressOf(x, false), e) || HitsExpr(InnerAccess(x), e)
  {
    var t := e.operand;
    LeavesPlace(m, t, s, x);
    if PlacedInside(t, x) {
      InsideIsRooted(m, t, s, x);
    }
    assert Eval(m, e, s).value == PtrV(Place(m, t, s).loc);
    assert PlacedInside(t, x) <==> IsName(t, x) || (!t.Identifier? && PlacedInside(t, x));
    hide Leaves, Unforgeable, Clean, Place, Eval;
  }

  /** &s.f */
  function MemberAddress(): Expr {
    Unary("&", MemberAccess(NewIdentifier("s"), "f", false), true)
  }

  lemma MemberAddressVerdicts()
    ensures var e := MemberAddress();
      && !InExpr(SomeCall(false), e) && !InExpr(Modification("s"), e) && !InExpr(AddressOf("s", false), e)
  {
  }

  /** The address of a member is not reported, and points into the variable. */
  lemma MemberAddressGoesUnnoticed(m: Machine, s: Store)
    ensures var e := MemberAddress();
      && !InExpr(SomeCall(false), e) && !InExpr(Modification("s"), e) && !InExpr(AddressOf("s", false), e)
      && PointsInto(Eval(m, e, s).value, "s")
  {
    MemberAddressVerdicts();
    hide InExpr;
    var place := MemberAccess(NewIdentifier("s"), "f", false);
    assert HasAmpersand("&") && !IsReinterpretation("&") by {
      assert "&"[0] == '&';
    }
    InsideIsRooted(m, place, s, "s");
    hide IsDereference;
    assert Eval(m, MemberAddress(), s).value == PtrV(Place(m, place, s).loc);
  }

  /** s.f = 1; */
  function MemberWrite(): Expr {
    Assignment("=", MemberAccess(NewIdentifier("s"), "f", false), IntegerLiteral(1, false, false))
  }

  lemma MemberWriteRuns(m: Machine)
    ensures Eval(m, MemberWrite(), map[]).store == map[Field(Var("s"), "f") := IntV(1)]
  {
    var place := MemberAccess(NewIdentifier("s"), "f", false);
    assert LvaluePlace(m, NewIdentifier("s"), map[]).loc == Var("s");
    assert Place(m, place, map[]) == Placed(Field(Var("s"), "f"), map[]);
  }

  lemma MemberWriteVerdicts()
    ensures var st := ExpressionStatement(MemberWrite());
      && !InStmt(SomeCall(false), st) && !InStmt(Modification("s"), st)
      && !InStmt(AddressOf("s", false), st) && !InStmt(Declaration("s"), st)
  {
  }

  lemma MemberWriteIsNotQuiet(t: Store)
    requires t == map[Field(Var("s"), "f") := IntV(1)]
    ensures Clean(map[], "s") && !Quiet(map[], t, "s")
  {
    var l := Field(Var("s"), "f");
    assert Load(t, l) == IntV(1) && Load(map[], l) == IntV(0) && RootedAt(l, "s");
  }

  /** Without the condition on parts the verdicts are not enough: writing a member is not reported. */
  lemma MemberWriteGoesUnnoticed(m: Machine)
    ensures var st := ExpressionStatement(MemberWrite());
            && !InStmt(SomeCall(false), st) && !InStmt(Modification("s"), st)
            && !InStmt(AddressOf("s", false), st) && !InStmt(Declaration("s"), st)
            && Clean(map[], "s")
            && !Quiet(map[], Exec(m, 0, st, None, map[]).store, "s")
  {
    hide Eval, LvaluePlace, Place, InStmt, Clean, Quiet, MemberWrite;
    MemberWriteRuns(m);
    MemberWriteVerdicts();
    var t := Eval(m, MemberWrite(), map[]).store;
    MemberWriteIsNotQuiet(t);
    assert Exec(m, 0, ExpressionStatement(MemberWrite()), None, map[]) == Done(Normal, t);
  }
}
