/** What the purity verdicts mean: a pure expression changes nothing, so a commutable binary may be
    swapped, and a condition may be negated (core/c_ast_utils.cc). */
module CPurity {
  import opened CAst
  import opened CSearch
  import opened CSemantics
  import opened Wrappers

  /** The parts of a pure expression are pure. */
  lemma PureParts(e: Expr)
    requires IsPure(e)
    ensures e.Unary? ==> IsPure(e.operand) && !IsIncDec(e.op)
    ensures e.Binary? ==> IsPure(e.lhs) && IsPure(e.rhs)
    ensures !e.Assignment? && !e.Call?
    ensures e.Cast? ==> IsPure(e.operand)
    ensures e.MemberAccess? ==> IsPure(e.object')
    ensures e.ArrayIndex? ==> IsPure(e.array') && IsPure(e.index)
    ensures e.Ternary? ==> IsPure(e.condition) && IsPure(e.trueExpression) && IsPure(e.falseExpression)
  {
    hide IsVolatileStackLoad;
  }

  /** Evaluating a pure expression changes no state. */
  lemma {:induction false} PureEval(m: Machine, e: Expr, s: Store)
    requires IsPure(e)
    ensures Eval(m, e, s).store == s
    decreases e, 1
  {
    PureParts(e);
    hide IsPure, IsIncDec, HasAmpersand, IsReinterpretation;
    if IsLvalue(e) {
      PureLvalue(m, e, s);
    } else {
      match e
      case Unary(op, operand, _) =>
        PureEval(m, operand, s);
        PurePlace(m, operand, s);
      case Binary(_, lhs, rhs) =>
        PureEval(m, lhs, s);
        PureEval(m, rhs, s);
      case Cast(_, operand) =>
        PureEval(m, operand, s);
      case Ternary(c, t, f) =>
        PureEval(m, c, s);
        PureEval(m, t, s);
        PureEval(m, f, s);
      case _ =>
    }
  }

  lemma {:induction false} PureLvalue(m: Machine, e: Expr, s: Store)
    requires IsPure(e) && IsLvalue(e)
    ensures LvaluePlace(m, e, s).store == s
    decreases e, 0
  {
    PureParts(e);
    hide IsPure;
    match e
    case Unary(op, operand, _) =>
      PureEval(m, operand, s);
      PurePlace(m, operand, s);
    case MemberAccess(object', _, _) =>
      PureEval(m, object', s);
      PurePlace(m, object', s);
    case ArrayIndex(array', index) =>
      PureEval(m, array', s);
      PureEval(m, index, s);
    case _ =>
  }

  lemma {:induction false} PurePlace(m: Machine, e: Expr, s: Store)
    requires IsPure(e)
    ensures Place(m, e, s).store == s
    decreases e, 2
  {
    hide IsPure;
    if IsLvalue(e) {
      PureLvalue(m, e, s);
    } else {
      PureEval(m, e, s);
    }
  }

  // ----- Swapping operands -----

  /** The operators have the symmetries that C gives them. */
  ghost predicate Commutes(m: Machine) {
    forall op: string, a: Value, b: Value :: CommutedBinaryOperator(op).Some? ==>
      m.binary(CommutedBinaryOperator(op).value, b, a) == m.binary(op, a, b)
  }

  /** A commutable binary expression means the same with its operands swapped. */
  lemma SwapOperands(m: Machine, op: string, lhs: Expr, rhs: Expr, s: Store)
    requires Commutes(m)
    requires CommutedBinaryOperator(op).Some? && IsPure(lhs) && IsPure(rhs)
    ensures Eval(m, Binary(CommutedBinaryOperator(op).value, rhs, lhs), s) == Eval(m, Binary(op, lhs, rhs), s)
  {
    PureEval(m, lhs, s);
    PureEval(m, rhs, s);
    var a, b := Eval(m, lhs, s), Eval(m, rhs, s);
    hide IsPure;
    assert m.binary(CommutedBinaryOperator(op).value, b.value, a.value) == m.binary(op, a.value, b.value);
  }

  // ----- Negating conditions -----

  function NegatedComparison(op: string): Option<string> {
    if op == "==" then Some("!=")
    else if op == "!=" then Some("==")
    else if op == "<" then Some(">=")
    else if op == ">=" then Some("<")
    else if op == ">" then Some("<=")
    else if op == "<=" then Some(">")
    else None
  }

  function NegateCondition(e: Expr): Expr {
    if e.Unary? && e.isPrefix && e.op == "!" then e.operand
    else if e.Binary? && NegatedComparison(e.op).Some? then Binary(NegatedComparison(e.op).value, e.lhs, e.rhs)
    else Unary("!", e, true)
  }

  /** Not, and the comparisons, are what they are on integers. */
  ghost predicate Negates(m: Machine) {
    && (forall v: Value :: Truthy(m.unary("!", v)) <==> !Truthy(v))
    && forall op: string, a: Value, b: Value :: NegatedComparison(op).Some? ==>
         (Truthy(m.binary(NegatedComparison(op).value, a, b)) <==> !Truthy(m.binary(op, a, b)))
  }

  /** The negated condition has the same effects and the opposite truth. */
  lemma NegationNegates(m: Machine, e: Expr, s: Store)
    requires Negates(m)
    ensures Eval(m, NegateCondition(e), s).store == Eval(m, e, s).store
    ensures Truthy(Eval(m, NegateCondition(e), s).value) <==> !Truthy(Eval(m, e, s).value)
  {
    if e.Unary? && e.isPrefix && e.op == "!" {
      var v := Eval(m, e.operand, s);
      assert Truthy(m.unary("!", v.value)) <==> !Truthy(v.value);
    } else if e.Binary? && NegatedComparison(e.op).Some? {
      var a := Eval(m, e.lhs, s);
      var b := Eval(m, e.rhs, a.store);
      assert Truthy(m.binary(NegatedComparison(e.op).value, a.value, b.value)) <==>
             !Truthy(m.binary(e.op, a.value, b.value));
    } else {
      var v := Eval(m, e, s);
      assert Eval(m, Unary("!", e, true), s) == Evaluated(m.unary("!", v.value), v.store);
    }
  }
}
