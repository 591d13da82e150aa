/** What the C syntax trees mean: a big-step semantics over integers and pointers, with jumps. The
    meaning of operators, casts, literals and calls is a parameter. */
module CSemantics {
  import opened CAst
  import opened Wrappers

  // ----- Values and stores -----

  datatype Loc = Var(name: string) | Cell(address: int) | Field(base: Loc, member': string) | Element(base: Loc, at: int)

  datatype Value = IntV(n: int) | PtrV(target: Loc)

  type Store = map<Loc, Value>

  function Load(s: Store, l: Loc): Value { if l in s then s[l] else IntV(0) }

  function Put(s: Store, l: Loc, v: Value): Store { s[l := v] }

  predicate Truthy(v: Value) { v.PtrV? || v.n != 0 }

  function AsInt(v: Value): int { if v.IntV? then v.n else 0 }

  /** The place a value points to. */
  function Pointee(v: Value): Loc { if v.PtrV? then v.target else Cell(v.n) }

  function ElementOf(v: Value, i: Value): Loc {
    if v.PtrV? then Element(v.target, AsInt(i)) else Cell(v.n + AsInt(i))
  }

  /** What operators, casts, literals and calls do. */
  datatype Machine = Machine(
    unary: (string, Value) -> Value,
    binary: (string, Value, Value) -> Value,
    cast: (CType, Value) -> Value,
    number: real -> Value,
    text: string -> Value,
    call: (Value, seq<Value>, Store) -> (Value, Store))

  /** The pointer that a dereference follows: the combined forms cast it first. */
  function Followed(m: Machine, op: string, v: Value): Value { if op == "*" then v else m.unary(op, v) }

  function AssignedValue(m: Machine, op: string, before: Value, v: Value): Value {
    if op == "=" then v else m.binary(op, before, v)
  }

  // ----- Expressions -----

  datatype Evaluated = Evaluated(value: Value, store: Store)
  datatype Placed = Placed(loc: Loc, store: Store)
  datatype EvaluatedAll = EvaluatedAll(values: seq<Value>, store: Store)

  function Eval(m: Machine, e: Expr, s: Store): Evaluated
    decreases e, 1
  {
    if IsLvalue(e) then
      var p := LvaluePlace(m, e, s);
      if e.Unary? && IsReinterpretation(e.op) then Evaluated(m.unary(e.op, Load(p.store, p.loc)), p.store)
      else Evaluated(Load(p.store, p.loc), p.store)
    else
      match e
      case IntegerLiteral(value, _, _) => Evaluated(IntV(value), s)
      case FloatLiteral(number, _) => Evaluated(m.number(number), s)
      case StringLiteral(text) => Evaluated(m.text(text), s)
      case Identifier(name, _, _) => Evaluated(Load(s, Var(name)), s)
      case Unary(op, operand, isPrefix) =>
        if IsIncDec(op) then
          var p := Place(m, operand, s);
          var before := Load(p.store, p.loc);
          var after := m.unary(op, before);
          Evaluated(if isPrefix then after else before, Put(p.store, p.loc, after))
        else if HasAmpersand(op) then
          var p := Place(m, operand, s);
          Evaluated(PtrV(p.loc), p.store)
        else
          var v := Eval(m, operand, s);
          Evaluated(m.unary(op, v.value), v.store)
      case Binary(op, lhs, rhs) =>
        var a := Eval(m, lhs, s);
        if IsAnd(op) then
          if !Truthy(a.value) then Evaluated(IntV(0), a.store)
          else
            var b := Eval(m, rhs, a.store);
            Evaluated(IntV(if Truthy(b.value) then 1 else 0), b.store)
        else if IsOr(op) then
          if Truthy(a.value) then Evaluated(IntV(1), a.store)
          else
            var b := Eval(m, rhs, a.store);
            Evaluated(IntV(if Truthy(b.value) then 1 else 0), b.store)
        else
          var b := Eval(m, rhs, a.store);
          Evaluated(m.binary(op, a.value, b.value), b.store)
      case Assignment(op, lhs, rhs) =>
        var p := Place(m, lhs, s);
        var v := Eval(m, rhs, p.store);
        var new' := AssignedValue(m, op, Load(v.store, p.loc), v.value);
        Evaluated(new', Put(v.store, p.loc, new'))
      case Call(callee, arguments) =>
        var f := Eval(m, callee, s);
        var vs := EvalAll(m, arguments, f.store);
        var r := m.call(f.value, vs.values, vs.store);
        Evaluated(r.0, r.1)
      case Cast(targetType, operand) =>
        var v := Eval(m, operand, s);
        Evaluated(m.cast(targetType, v.value), v.store)
      case Ternary(condition, trueExpression, falseExpression) =>
        var c := Eval(m, condition, s);
        if Truthy(c.value) then Eval(m, trueExpression, c.store) else Eval(m, falseExpression, c.store)
      case _ => Evaluated(IntV(0), s)
  }

  function LvaluePlace(m: Machine, e: Expr, s: Store): Placed
    requires IsLvalue(e)
    decreases e, 0
  {
    match e
    case Identifier(name, _, _) => Placed(Var(name), s)
    case Unary(op, operand, _) =>
      if IsReinterpretation(op) then Place(m, operand, s)
      else
        var v := Eval(m, operand, s);
        Placed(Pointee(Followed(m, op, v.value)), v.store)
    case MemberAccess(object', memberName, isArrow) =>
      if isArrow then
        var v := Eval(m, object', s);
        Placed(Field(Pointee(v.value), memberName), v.store)
      else
        var p := Place(m, object', s);
        Placed(Field(p.loc, memberName), p.store)
    case ArrayIndex(array', index) =>
      var a := Eval(m, array', s);
      var i := Eval(m, index, a.store);
      Placed(ElementOf(a.value, i.value), i.store)
  }

  /** The place of an expression; one that is no lvalue stands for what its value points to. */
  function Place(m: Machine, e: Expr, s: Store): Placed
    decreases e, 2
  {
    if IsLvalue(e) then LvaluePlace(m, e, s)
    else
      var v := Eval(m, e, s);
      Placed(Pointee(v.value), v.store)
  }

  function EvalAll(m: Machine, es: seq<Expr>, s: Store): (r: EvaluatedAll)
    ensures |r.values| == |es|
    decreases es, 0
  {
    if es == [] then EvaluatedAll([], s)
    else
      var front := EvalAll(m, es[..|es| - 1], s);
      var last := Eval(m, es[|es| - 1], front.store);
      EvaluatedAll(front.values + [last.value], last.store)
  }

  // ----- Evaluation, kind by kind -----

  function BinaryValue(m: Machine, op: string, a: Value, b: Value): Value {
    if IsAnd(op) then IntV(if Truthy(a) && Truthy(b) then 1 else 0)
    else if IsOr(op) then IntV(if Truthy(a) || Truthy(b) then 1 else 0)
    else m.binary(op, a, b)
  }

  lemma EvalBinary(m: Machine, op: string, lhs: Expr, rhs: Expr, s: Store)
    ensures var a := Eval(m, lhs, s);
      var b := Eval(m, rhs, a.store);
      Eval(m, Binary(op, lhs, rhs), s) ==
        if IsAnd(op) && !Truthy(a.value) then Evaluated(IntV(0), a.store)
        else if !IsAnd(op) && IsOr(op) && Truthy(a.value) then Evaluated(IntV(1), a.store)
        else Evaluated(BinaryValue(m, op, a.value, b.value), b.store)
  {
    hide IsAnd, IsOr, Truthy, LvaluePlace, Place, EvalAll;
  }

  lemma EvalTernary(m: Machine, c: Expr, yes: Expr, no: Expr, s: Store)
    ensures var v := Eval(m, c, s);
      Eval(m, Ternary(c, yes, no), s) == if Truthy(v.value) then Eval(m, yes, v.store) else Eval(m, no, v.store)
  {
    hide Truthy, LvaluePlace, Place;
  }

  lemma EvalAssignment(m: Machine, op: string, lhs: Expr, rhs: Expr, s: Store)
    ensures var p := Place(m, lhs, s);
      var v := Eval(m, rhs, p.store);
      var new' := AssignedValue(m, op, Load(v.store, p.loc), v.value);
      Eval(m, Assignment(op, lhs, rhs), s) == Evaluated(new', Put(v.store, p.loc, new'))
  {
    hide AssignedValue, LvaluePlace, Place, Load, Put;
  }

  lemma EvalAllLast(m: Machine, es: seq<Expr>, e: Expr, s: Store)
    ensures var front := EvalAll(m, es, s);
      var last := Eval(m, e, front.store);
      EvalAll(m, es + [e], s) == EvaluatedAll(front.values + [last.value], last.store)
  {
    assert (es + [e])[..|es|] == es;
    hide Eval;
  }

  lemma PlaceDereference(m: Machine, op: string, operand: Expr, isPrefix: bool, s: Store)
    requires IsLvalue(Unary(op, operand, isPrefix)) && !IsReinterpretation(op)
    ensures var v := Eval(m, operand, s);
      LvaluePlace(m, Unary(op, operand, isPrefix), s) ==
        Placed(Pointee(Followed(m, op, v.value)), v.store)
  {
  }

  lemma PlaceReinterpretation(m: Machine, op: string, operand: Expr, isPrefix: bool, s: Store)
    requires IsLvalue(Unary(op, operand, isPrefix)) && IsReinterpretation(op)
    ensures LvaluePlace(m, Unary(op, operand, isPrefix), s) == Place(m, operand, s)
  {
  }

  lemma PlaceMember(m: Machine, object': Expr, member': string, isArrow: bool, s: Store)
    ensures LvaluePlace(m, MemberAccess(object', member', isArrow), s) ==
      if isArrow then Placed(Field(Pointee(Eval(m, object', s).value), member'), Eval(m, object', s).store)
      else Placed(Field(Place(m, object', s).loc, member'), Place(m, object', s).store)
  {
  }

  lemma PlaceElement(m: Machine, array': Expr, index: Expr, s: Store)
    ensures var a := Eval(m, array', s);
      var i := Eval(m, index, a.store);
      LvaluePlace(m, ArrayIndex(array', index), s) == Placed(ElementOf(a.value, i.value), i.store)
  {
  }

  // ----- Statements -----

  /** What a jump can aim at. */
  datatype Mark = NameMark(name: string) | CaseMark(value: int) | DefaultMark

  datatype Outcome = Normal | Broken | Continued | Returned(value: Option<Value>) | Jumping(goal: string) | Missing

  datatype Run = Timeout | Done(outcome: Outcome, store: Store)

  function MarksOfAll(stmts: seq<Stmt>): set<Mark>
    decreases stmts, 0
  {
    if stmts == [] then {} else Marks(stmts[0]) + MarksOfAll(stmts[1..])
  }

  function MarksOfCases(cases: seq<SwitchCase>): set<Mark>
    decreases cases, 0
  {
    if cases == [] then {} else MarksOfAll(cases[0].body) + MarksOfCases(cases[1..])
  }

  /** The marks inside a statement. */
  function Marks(st: Stmt): set<Mark>
    decreases st, 1
  {
    match st
    case Compound(statements) => MarksOfAll(statements)
    case If(_, thenBranch, elseBranch) =>
      Marks(thenBranch) + (if elseBranch.Some? then Marks(elseBranch.value) else {})
    case While(_, body) => Marks(body)
    case DoWhile(body, _) => Marks(body)
    case For(init, _, _, body) => (if init.Some? then Marks(init.value) else {}) + Marks(body)
    case Label(name) => {NameMark(name)}
    case Case(value, isDefault) => if isDefault then {DefaultMark} else {CaseMark(value)}
    case Switch(_, cases) => MarksOfCases(cases)
    case _ => {}
  }

  /** The first case clause for a value, else the default clause. */
  function ChosenCase(cases: seq<SwitchCase>, n: int): Option<nat> {
    if FirstWith(cases, n).Some? then FirstWith(cases, n) else FirstDefault(cases)
  }

  function FirstWith(cases: seq<SwitchCase>, n: int): (r: Option<nat>)
    ensures r.Some? ==> r.value < |cases|
  {
    if cases == [] then None
    else if n in cases[0].caseValues then Some(0)
    else
      var rest := FirstWith(cases[1..], n);
      if rest.Some? then Some(rest.value + 1) else None
  }

  function FirstDefault(cases: seq<SwitchCase>): (r: Option<nat>)
    ensures r.Some? ==> r.value < |cases|
  {
    if cases == [] then None
    else if cases[0].isDefault then Some(0)
    else
      var rest := FirstDefault(cases[1..]);
      if rest.Some? then Some(rest.value + 1) else None
  }

  function EvalOption(m: Machine, e: Option<Expr>, s: Store): Evaluated {
    if e.Some? then Eval(m, e.value, s) else Evaluated(IntV(1), s)
  }

  /** Runs a statement from its start, or from a mark inside it. Every further round of a loop takes a
      unit of fuel. */
  function Exec(m: Machine, fuel: nat, st: Stmt, entry: Option<Mark>, s: Store): Run
    decreases fuel, st, 1
  {
    if entry.Some? && entry.value !in Marks(st) then Done(Missing, s)
    else
      match st
      case Compound(statements) => ExecAll(m, fuel, statements, entry, s)
      case ExpressionStatement(e) => Done(Normal, Eval(m, e, s).store)
      case VariableDeclaration(_, name, init) =>
        if init.Some? then
          var v := Eval(m, init.value, s);
          Done(Normal, Put(v.store, Var(name), v.value))
        else Done(Normal, s)
      case If(condition, thenBranch, elseBranch) =>
        if entry.Some? then
          if entry.value in Marks(thenBranch) then Exec(m, fuel, thenBranch, entry, s)
          else if elseBranch.Some? then Exec(m, fuel, elseBranch.value, entry, s)
          else Done(Missing, s)
        else
          var c := Eval(m, condition, s);
          if Truthy(c.value) then Exec(m, fuel, thenBranch, None, c.store)
          else if elseBranch.Some? then Exec(m, fuel, elseBranch.value, None, c.store)
          else Done(Normal, c.store)
      case While(condition, body) =>
        if entry.Some? then AfterRound(m, fuel, st, Exec(m, fuel, body, entry, s))
        else
          var c := Eval(m, condition, s);
          if Truthy(c.value) then AfterRound(m, fuel, st, Exec(m, fuel, body, None, c.store))
          else Done(Normal, c.store)
      case DoWhile(body, condition) =>
        var r := Exec(m, fuel, body, entry, s);
        if r.Done? && (r.outcome.Normal? || r.outcome.Continued?) then
          var c := Eval(m, condition, r.store);
          if Truthy(c.value) then AfterRound(m, fuel, st, Done(Normal, c.store)) else Done(Normal, c.store)
        else LeaveLoop(r)
      case For(init, condition, step, body) =>
        if entry.Some? && (init.None? || entry.value !in Marks(init.value)) then
          AfterForRound(m, fuel, st, Exec(m, fuel, body, entry, s))
        else if init.Some? then
          var r := Exec(m, fuel, init.value, entry, s);
          if r.Done? && r.outcome.Normal? then
            if fuel == 0 then Timeout else Exec(m, fuel - 1, For(None, condition, step, body), None, r.store)
          else r
        else
          var c := EvalOption(m, condition, s);
          if Truthy(c.value) then AfterForRound(m, fuel, st, Exec(m, fuel, body, None, c.store))
          else Done(Normal, c.store)
      case Return(value) =>
        if value.Some? then
          var v := Eval(m, value.value, s);
          Done(Returned(Some(v.value)), v.store)
        else Done(Returned(None), s)
      case BreakStatement => Done(Broken, s)
      case ContinueStatement => Done(Continued, s)
      case Goto(goal) => Done(Jumping(goal), s)
      case Label(_) => Done(Normal, s)
      case Case(_, _) => Done(Normal, s)
      case Switch(condition, cases) =>
        if entry.Some? then LeaveLoop(ExecCases(m, fuel, cases, entry, s))
        else
          var c := Eval(m, condition, s);
          var k := ChosenCase(cases, AsInt(c.value));
          if k.Some? then LeaveLoop(ExecCases(m, fuel, cases[k.value..], None, c.store))
          else Done(Normal, c.store)
      case Comment(_) => Done(Normal, s)
  }

  // ----- Execution, kind by kind -----

  predicate Enters(st: Stmt, entry: Option<Mark>) { entry.Some? ==> entry.value in Marks(st) }

  lemma ExecIf(m: Machine, fuel: nat, st: Stmt, s: Store)
    requires st.If?
    ensures var c := Eval(m, st.condition, s);
      Exec(m, fuel, st, None, s) ==
        if Truthy(c.value) then Exec(m, fuel, st.thenBranch, None, c.store)
        else if st.elseBranch.Some? then Exec(m, fuel, st.elseBranch.value, None, c.store)
        else Done(Normal, c.store)
  {
  }

  lemma ExecIfAt(m: Machine, fuel: nat, st: Stmt, entry: Option<Mark>, s: Store)
    requires st.If? && entry.Some? && Enters(st, entry)
    ensures Exec(m, fuel, st, entry, s) ==
      if entry.value in Marks(st.thenBranch) then Exec(m, fuel, st.thenBranch, entry, s)
      else if st.elseBranch.Some? then Exec(m, fuel, st.elseBranch.value, entry, s)
      else Done(Missing, s)
  {
  }

  lemma ExecWhile(m: Machine, fuel: nat, st: Stmt, entry: Option<Mark>, s: Store)
    requires st.While? && Enters(st, entry)
    ensures var c := Eval(m, st.condition, s);
      Exec(m, fuel, st, entry, s) ==
        if entry.Some? then AfterRound(m, fuel, st, Exec(m, fuel, st.loopBody, entry, s))
        else if Truthy(c.value) then AfterRound(m, fuel, st, Exec(m, fuel, st.loopBody, None, c.store))
        else Done(Normal, c.store)
  {
    hide AfterRound, Eval;
  }

  lemma ExecDoWhile(m: Machine, fuel: nat, st: Stmt, entry: Option<Mark>, s: Store)
    requires st.DoWhile? && Enters(st, entry)
    ensures var r := Exec(m, fuel, st.loopBody, entry, s);
      Exec(m, fuel, st, entry, s) ==
        if r.Done? && (r.outcome.Normal? || r.outcome.Continued?) then
          var c := Eval(m, st.condition, r.store);
          if Truthy(c.value) then AfterRound(m, fuel, st, Done(Normal, c.store)) else Done(Normal, c.store)
        else LeaveLoop(r)
  {
    hide AfterRound, Eval;
  }

  lemma ExecForAt(m: Machine, fuel: nat, st: Stmt, entry: Option<Mark>, s: Store)
    requires st.For? && Enters(st, entry) && entry.Some? && (st.init.None? || entry.value !in Marks(st.init.value))
    ensures Exec(m, fuel, st, entry, s) == AfterForRound(m, fuel, st, Exec(m, fuel, st.loopBody, entry, s))
  {
    hide AfterForRound, Eval;
  }

  lemma ExecForStart(m: Machine, fuel: nat, st: Stmt, entry: Option<Mark>, s: Store)
    requires st.For? && Enters(st, entry) && st.init.Some? && Enters(st.init.value, entry)
    ensures var r := Exec(m, fuel, st.init.value, entry, s);
      Exec(m, fuel, st, entry, s) ==
        if r.Done? && r.outcome.Normal? then
          if fuel == 0 then Timeout
          else Exec(m, fuel - 1, For(None, st.forCondition, st.step, st.loopBody), None, r.store)
        else r
  {
    hide AfterForRound, Eval;
  }

  lemma ExecForRound(m: Machine, fuel: nat, st: Stmt, s: Store)
    requires st.For? && st.init.None?
    ensures var c := EvalOption(m, st.forCondition, s);
      Exec(m, fuel, st, None, s) ==
        if Truthy(c.value) then AfterForRound(m, fuel, st, Exec(m, fuel, st.loopBody, None, c.store))
        else Done(Normal, c.store)
  {
    hide AfterForRound, EvalOption;
  }

  lemma ExecSwitch(m: Machine, fuel: nat, st: Stmt, entry: Option<Mark>, s: Store)
    requires st.Switch? && Enters(st, entry)
    ensures var c := Eval(m, st.condition, s);
      var k := ChosenCase(st.cases, AsInt(c.value));
      Exec(m, fuel, st, entry, s) ==
        if entry.Some? then LeaveLoop(ExecCases(m, fuel, st.cases, entry, s))
        else if k.Some? then LeaveLoop(ExecCases(m, fuel, st.cases[k.value..], None, c.store))
        else Done(Normal, c.store)
  {
    hide ExecCases, Eval, ChosenCase;
  }

  /** Another round of a loop, unless its body left it. */
  function AfterRound(m: Machine, fuel: nat, st: Stmt, r: Run): Run
    requires st.While? || st.DoWhile?
    decreases fuel, st, 0
  {
    if r.Done? && (r.outcome.Normal? || r.outcome.Continued?) then
      if fuel == 0 then Timeout else Exec(m, fuel - 1, st, None, r.store)
    else LeaveLoop(r)
  }

  function AfterForRound(m: Machine, fuel: nat, st: Stmt, r: Run): Run
    requires st.For?
    decreases fuel, st, 0
  {
    if r.Done? && (r.outcome.Normal? || r.outcome.Continued?) then
      if fuel == 0 then Timeout
      else
        var s := if st.step.Some? then Eval(m, st.step.value, r.store).store else r.store;
        Exec(m, fuel - 1, For(None, st.forCondition, st.step, st.loopBody), None, s)
    else LeaveLoop(r)
  }

  function LeaveLoop(r: Run): Run { if r.Done? && r.outcome.Broken? then Done(Normal, r.store) else r }

  /** Runs statements in order, from the start or from the one that holds a mark. */
  function ExecAll(m: Machine, fuel: nat, stmts: seq<Stmt>, entry: Option<Mark>, s: Store): Run
    decreases fuel, stmts, 0
  {
    if stmts == [] then Done(if entry.Some? then Missing else Normal, s)
    else if entry.Some? && entry.value !in Marks(stmts[0]) then ExecAll(m, fuel, stmts[1..], entry, s)
    else
      var r := Exec(m, fuel, stmts[0], entry, s);
      if r.Done? && r.outcome.Normal? then ExecAll(m, fuel, stmts[1..], None, r.store) else r
  }

  /** Runs the bodies of case clauses, each falling through to the next. */
  function ExecCases(m: Machine, fuel: nat, cases: seq<SwitchCase>, entry: Option<Mark>, s: Store): Run
    decreases fuel, cases, 0
  {
    if cases == [] then Done(if entry.Some? then Missing else Normal, s)
    else if entry.Some? && entry.value !in MarksOfAll(cases[0].body) then ExecCases(m, fuel, cases[1..], entry, s)
    else
      var r := ExecAll(m, fuel, cases[0].body, entry, s);
      if r.Done? && r.outcome.Normal? then ExecCases(m, fuel, cases[1..], None, r.store) else r
  }

  /** Runs a function body: a goto resumes at its label. */
  function ExecFunction(m: Machine, fuel: nat, body: seq<Stmt>, entry: Option<Mark>, s: Store): Run {
    var r := ExecAll(m, fuel, body, entry, s);
    if r.Done? && r.outcome.Jumping? && NameMark(r.outcome.goal) in MarksOfAll(body) then
      if fuel == 0 then Timeout else ExecFunction(m, fuel - 1, body, Some(NameMark(r.outcome.goal)), r.store)
    else r
  }
}
