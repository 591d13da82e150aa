/** SubstituteIdentifier of core/c_ast_utils.cc, and what it means for pure expressions. */
module CSubstitution {
  import opened CAst
  import opened CPurity
  import opened CSearch
  import opened CSemantics
  import opened CUnchanged
  import opened Strings
  import opened Wrappers

  // ----- The rewrite -----

  predicate IsIntBitcast(op: string) {
    op == "*(s32*)&" || op == "*(s32 *)&" || op == "*(u32*)&" || op == "*(u32 *)&"
  }

  predicate IsSignedBitcast(op: string) { op == "*(s32*)&" || op == "*(s32 *)&" }

  /** A loaded float, *(f32*)p. */
  predicate IsFloatLoad(e: Expr) {
    e.Unary? && e.op == "*" && e.operand.Cast? && e.operand.targetType.name == "f32" &&
    e.operand.targetType.pointerDepth == 1
  }

  /** A floating-point register variable replaced by something that is no literal. */
  predicate MayBitcast(target: string, replacement: Expr) {
    |target| >= 2 && target[0] == 'f' && '0' <= target[1] <= '9' && !replacement.FloatLiteral?
  }

  predicate IsPlainCast(e: Expr, name: string) {
    e.Cast? && e.targetType.name == name && e.targetType.pointerDepth == 0
  }

  function SubstituteName(e: Expr, target: string, replacement: Expr): Expr
    requires e.Identifier?
  {
    if e.name == target then replacement
    else if replacement.Identifier? && CastsName(e.name, target) then
      NewIdentifier(e.name[..|e.name| - |target| - 1] + replacement.name + ")")
    else e
  }

  /** A cast to f32 drops the f64 in between when what is below is a u32. */
  function SimplifiedCast(t: CType, operand: Expr): Expr {
    if t.name == "f32" && t.pointerDepth == 0 && IsPlainCast(operand, "f64") && IsPlainCast(operand.operand, "u32")
    then Cast(t, operand.operand)
    else Cast(t, operand)
  }

  function SubstituteIdentifier(e: Expr, target: string, replacement: Expr): Expr
    decreases e, 0
  {
    match e
    case Identifier(_, _, _) => SubstituteName(e, target, replacement)
    case Unary(op, operand, isPrefix) =>
      if IsIntBitcast(op) && IsName(operand, target) && IsFloatLoad(replacement) then
        var t := replacement.operand.targetType.(name := if StartsWith(op, "*(u32") then "u32" else "s32");
        Unary("*", Cast(t, replacement.operand.operand), true)
      else if HasAmpersand(op) && !replacement.Identifier? && IsName(operand, target) &&
              !(IsSignedBitcast(op) && MayBitcast(target, replacement)) then e
      else Unary(op, SubstituteIdentifier(operand, target, replacement), isPrefix)
    case Binary(op, lhs, rhs) =>
      Binary(op, SubstituteIdentifier(lhs, target, replacement), SubstituteIdentifier(rhs, target, replacement))
    case Assignment(op, lhs, rhs) =>
      var newLhs :=
        if lhs.Identifier? && !replacement.Identifier? then lhs else SubstituteIdentifier(lhs, target, replacement);
      Assignment(op, newLhs, SubstituteIdentifier(rhs, target, replacement))
    case Call(callee, arguments) =>
      Call(SubstituteIdentifier(callee, target, replacement), SubstituteArguments(arguments, target, replacement))
    case Cast(t, operand) => SimplifiedCast(t, SubstituteIdentifier(operand, target, replacement))
    case MemberAccess(object', memberName, isArrow) =>
      MemberAccess(SubstituteIdentifier(object', target, replacement), memberName, isArrow)
    case ArrayIndex(array', index) =>
      ArrayIndex(SubstituteIdentifier(array', target, replacement), SubstituteIdentifier(index, target, replacement))
    case Ternary(c, t, f) =>
      Ternary(
        SubstituteIdentifier(c, target, replacement),
        SubstituteIdentifier(t, target, replacement),
        SubstituteIdentifier(f, target, replacement))
    case _ => e
  }

  function SubstituteArguments(es: seq<Expr>, target: string, replacement: Expr): (r: seq<Expr>)
    ensures |r| == |es|
    decreases es, 0
  {
    if es == [] then []
    else
      var n := |es| - 1;
      SubstituteArguments(es[..n], target, replacement) + [SubstituteArgument(es[n], n, target, replacement)]
  }

  function SubstituteArgument(e: Expr, i: nat, target: string, replacement: Expr): Expr
    decreases e, 1
  {
    if i >= 1 && MayBitcast(target, replacement) && e.Unary? && IsSignedBitcast(e.op) && IsName(e.operand, target)
    then Unary(e.op, replacement, e.isPrefix)
    else SubstituteIdentifier(e, target, replacement)
  }

  // ----- What it means -----

  /** Converting an unsigned integer through double to single precision is converting it at once. */
  ghost predicate CastsDirectly(m: Machine) {
    forall t: CType, d: CType, u: CType, v: Value ::
      t.name == "f32" && t.pointerDepth == 0 && d.name == "f64" && d.pointerDepth == 0 &&
      u.name == "u32" && u.pointerDepth == 0 ==>
        m.cast(t, m.cast(d, m.cast(u, v))) == m.cast(t, m.cast(u, v))
  }

  lemma SimplifiedCastMeansSame(m: Machine, t: CType, operand: Expr, s: Store)
    requires CastsDirectly(m)
    ensures Eval(m, SimplifiedCast(t, operand), s) == Eval(m, Cast(t, operand), s)
  {
    if t.name == "f32" && t.pointerDepth == 0 && IsPlainCast(operand, "f64") && IsPlainCast(operand.operand, "u32") {
      var inner := operand.operand;
      var v := Eval(m, inner.operand, s);
      assert Eval(m, inner, s) == Evaluated(m.cast(inner.targetType, v.value), v.store);
      assert Eval(m, operand, s) == Evaluated(m.cast(operand.targetType, m.cast(inner.targetType, v.value)), v.store);
    }
  }

  /** Pure, without `&`, without function-pointer casts of x, and without x.member. */
  ghost predicate Replaceable(e: Expr, x: string) {
    && IsPure(e) && !InExpr(Ampersand, e) && !InExpr(CastName(x), e) && !InExpr(DotMember(x), e)
  }

  lemma ReplaceableParts(e: Expr, x: string)
    requires Replaceable(e, x)
    ensures e.Identifier? ==> !CastsName(e.name, x)
    ensures e.Unary? ==> Replaceable(e.operand, x) && !HasAmpersand(e.op) && !IsIncDec(e.op)
    ensures e.Binary? ==> Replaceable(e.lhs, x) && Replaceable(e.rhs, x)
    ensures !e.Assignment? && !e.Call?
    ensures e.Cast? ==> Replaceable(e.operand, x)
    ensures e.MemberAccess? ==> Replaceable(e.object', x) && (!e.isArrow ==> !PlacedInside(e.object', x))
    ensures e.ArrayIndex? ==> Replaceable(e.array', x) && Replaceable(e.index, x)
    ensures e.Ternary? ==>
      Replaceable(e.condition, x) && Replaceable(e.trueExpression, x) && Replaceable(e.falseExpression, x)
  {
    PureParts(e);
    ExprParts(Ampersand, e);
    ExprParts(CastName(x), e);
    ExprParts(DotMember(x), e);
    hide InExpr, InExprs, IsPure, CastsName, HasAmpersand, IsIncDec;
  }

  /** What the replacement of x by r needs of the run. */
  ghost predicate Replacing(m: Machine, x: string, r: Expr, s: Store, t: Store) {
    && Unforgeable(m, x) && CastsDirectly(m) && IsPure(r) && Clean(s, x)
    && !PointsInto(Eval(m, r, s).value, x)
    && t == Put(s, Var(x), Eval(m, r, s).value)
  }

  lemma OtherPlaces(m: Machine, x: string, r: Expr, s: Store, t: Store, l: Loc)
    requires Replacing(m, x, r, s, t) && !RootedAt(l, x)
    ensures Load(s, l) == Load(t, l) && !PointsInto(Load(s, l), x)
  {
    hide Eval, Unforgeable;
  }

  ghost predicate SameValue(e: Evaluated, s: Store, f: Evaluated, x: string) {
    e == Evaluated(f.value, s) && !PointsInto(f.value, x)
  }

  ghost predicate SamePlace(p: Placed, s: Store, q: Placed, x: string) {
    p == Placed(q.loc, s) && !RootedAt(q.loc, x)
  }

  lemma KindKept(e: Expr, x: string, r: Expr)
    requires Replaceable(e, x) && !IsName(e, x)
    ensures IsLvalue(SubstituteIdentifier(e, x, r)) <==> IsLvalue(e)
    ensures e.Unary? ==>
      SubstituteIdentifier(e, x, r) == Unary(e.op, SubstituteIdentifier(e.operand, x, r), e.isPrefix)
    ensures SubstituteIdentifier(e, x, r).Unary? ==> e.Unary?
  {
    ReplaceableParts(e, x);
    hide Replaceable, HasAmpersand, IsDereference, IsIncDec;
  }

  /** Evaluating the rewritten expression is evaluating the original with x bound to the value of the
      replacement. */
  lemma {:induction false} SubstitutionMeansBinding(m: Machine, e: Expr, x: string, r: Expr, s: Store, t: Store)
    requires Replacing(m, x, r, s, t) && Replaceable(e, x)
    ensures SameValue(Eval(m, SubstituteIdentifier(e, x, r), s), s, Eval(m, e, t), x)
    decreases e, 2
  {
    PureEval(m, r, s);
    ReplaceableParts(e, x);
    if IsName(e, x) {
      assert Load(t, Var(x)) == Eval(m, r, s).value;
      hide Eval;
      assert Eval(m, e, t).value == Load(t, Var(x)) by { EvalName(m, e, t); }
    } else if IsLvalue(e) {
      KindKept(e, x, r);
      SubstitutedLvalue(m, e, x, r, s, t);
      OtherPlaces(m, x, r, s, t, LvaluePlace(m, e, t).loc);
      PureLvalue(m, e, t);
      hide Replacing, Replaceable;
      LoadedLvalue(m, e, t);
      LoadedLvalue(m, SubstituteIdentifier(e, x, r), s);
    } else {
      SubstitutedOther(m, e, x, r, s, t);
    }
  }

  lemma EvalName(m: Machine, e: Expr, s: Store)
    requires e.Identifier?
    ensures Eval(m, e, s) == Evaluated(Load(s, Var(e.name)), s)
  {
  }

  lemma LoadedLvalue(m: Machine, e: Expr, s: Store)
    requires IsLvalue(e) && !(e.Unary? && HasAmpersand(e.op))
    ensures Eval(m, e, s) == Evaluated(Load(LvaluePlace(m, e, s).store, LvaluePlace(m, e, s).loc), LvaluePlace(m, e, s).store)
  {
  }

  lemma {:induction false} SubstitutedLvalue(m: Machine, e: Expr, x: string, r: Expr, s: Store, t: Store)
    requires Replacing(m, x, r, s, t) && Replaceable(e, x) && IsLvalue(e) && !IsName(e, x)
    requires IsLvalue(SubstituteIdentifier(e, x, r))
    ensures SamePlace(LvaluePlace(m, SubstituteIdentifier(e, x, r), s), s, LvaluePlace(m, e, t), x)
    decreases e, 1
  {
    ReplaceableParts(e, x);
    hide Replaceable, Replacing;
    match e
    case Identifier(name, _, _) =>
      VarRoot(name, x);
    case Unary(_, _, _) =>
      SubstitutedDereference(m, e, x, r, s, t);
    case MemberAccess(_, _, _) =>
      SubstitutedMember(m, e, x, r, s, t);
    case ArrayIndex(_, _) =>
      SubstitutedElement(m, e, x, r, s, t);
  }

  lemma {:induction false} SubstitutedDereference(m: Machine, e: Expr, x: string, r: Expr, s: Store, t: Store)
    requires Replacing(m, x, r, s, t) && Replaceable(e, x) && IsLvalue(e) && e.Unary?
    requires IsLvalue(SubstituteIdentifier(e, x, r))
    ensures SamePlace(LvaluePlace(m, SubstituteIdentifier(e, x, r), s), s, LvaluePlace(m, e, t), x)
    decreases e, 0
  {
    ReplaceableParts(e, x);
    KindKept(e, x, r);
    SubstitutionMeansBinding(m, e.operand, x, r, s, t);
    var v := Eval(m, e.operand, t).value;
    assert PointsInto(m.unary(e.op, v), x) ==> PointsInto(v, x);
    PointeeOutside(v, IntV(0), x);
    PointeeOutside(m.unary(e.op, v), IntV(0), x);
    hide Replacing, Replaceable, RootedAt, IsDereference, SubstituteIdentifier, Eval, IsIncDec;
  }

  lemma {:induction false} SubstitutedMember(m: Machine, e: Expr, x: string, r: Expr, s: Store, t: Store)
    requires Replacing(m, x, r, s, t) && Replaceable(e, x) && e.MemberAccess?
    ensures SamePlace(LvaluePlace(m, SubstituteIdentifier(e, x, r), s), s, LvaluePlace(m, e, t), x)
    decreases e, 0
  {
    ReplaceableParts(e, x);
    var o := e.object';
    assert SubstituteIdentifier(e, x, r) == MemberAccess(SubstituteIdentifier(o, x, r), e.memberName, e.isArrow);
    hide Replacing, Replaceable, RootedAt, PlacedInside, SubstituteIdentifier, Eval;
    if e.isArrow {
      SubstitutionMeansBinding(m, o, x, r, s, t);
      PointeeOutside(Eval(m, o, t).value, IntV(0), x);
      FieldRoot(Pointee(Eval(m, o, t).value), e.memberName, x);
    } else {
      SubstitutedPlace(m, o, x, r, s, t);
      FieldRoot(Place(m, o, t).loc, e.memberName, x);
    }
  }

  lemma {:induction false} SubstitutedElement(m: Machine, e: Expr, x: string, r: Expr, s: Store, t: Store)
    requires Replacing(m, x, r, s, t) && Replaceable(e, x) && e.ArrayIndex?
    ensures SamePlace(LvaluePlace(m, SubstituteIdentifier(e, x, r), s), s, LvaluePlace(m, e, t), x)
    decreases e, 0
  {
    ReplaceableParts(e, x);
    assert SubstituteIdentifier(e, x, r) ==
           ArrayIndex(SubstituteIdentifier(e.array', x, r), SubstituteIdentifier(e.index, x, r));
    hide Replacing, Replaceable, RootedAt, SubstituteIdentifier, Eval;
    SubstitutionMeansBinding(m, e.array', x, r, s, t);
    SubstitutionMeansBinding(m, e.index, x, r, s, t);
    PureInBoth(m, e.array', x, t);
    PointeeOutside(Eval(m, e.array', t).value, Eval(m, e.index, t).value, x);
  }

  lemma PureInBoth(m: Machine, e: Expr, x: string, t: Store)
    requires Replaceable(e, x)
    ensures Eval(m, e, t).store == t
  {
    PureEval(m, e, t);
    hide Eval;
  }

  lemma {:induction false} SubstitutedPlace(m: Machine, e: Expr, x: string, r: Expr, s: Store, t: Store)
    requires Replacing(m, x, r, s, t) && Replaceable(e, x) && !PlacedInside(e, x)
    ensures SamePlace(Place(m, SubstituteIdentifier(e, x, r), s), s, Place(m, e, t), x)
    decreases e, 3
  {
    assert !IsName(e, x);
    KindKept(e, x, r);
    hide Replacing, Replaceable, RootedAt, PlacedInside, IsLvalue, SubstituteIdentifier, Eval, LvaluePlace;
    if IsLvalue(e) {
      SubstitutedLvalue(m, e, x, r, s, t);
    } else {
      SubstitutionMeansBinding(m, e, x, r, s, t);
      PointeeOutside(Eval(m, e, t).value, IntV(0), x);
    }
  }

  lemma {:induction false} SubstitutedOther(m: Machine, e: Expr, x: string, r: Expr, s: Store, t: Store)
    requires Replacing(m, x, r, s, t) && Replaceable(e, x) && !IsLvalue(e) && !IsName(e, x)
    ensures SameValue(Eval(m, SubstituteIdentifier(e, x, r), s), s, Eval(m, e, t), x)
    decreases e, 1
  {
    ReplaceableParts(e, x);
    hide Replaceable, RootedAt;
    match e
    case IntegerLiteral(_, _, _) =>
    case FloatLiteral(number, _) =>
      assert !PointsInto(m.number(number), x);
    case StringLiteral(text) =>
      assert !PointsInto(m.text(text), x);
    case Unary(_, _, _) =>
      SubstitutedUnary(m, e, x, r, s, t);
    case Binary(_, _, _) =>
      SubstitutedBinary(m, e, x, r, s, t);
    case Cast(_, _) =>
      SubstitutedCast(m, e, x, r, s, t);
    case Ternary(_, _, _) =>
      SubstitutedTernary(m, e, x, r, s, t);
    case _ =>
  }

  lemma {:induction false} SubstitutedUnary(m: Machine, e: Expr, x: string, r: Expr, s: Store, t: Store)
    requires Replacing(m, x, r, s, t) && Replaceable(e, x) && !IsLvalue(e) && e.Unary?
    ensures SameValue(Eval(m, SubstituteIdentifier(e, x, r), s), s, Eval(m, e, t), x)
    decreases e, 0
  {
    ReplaceableParts(e, x);
    KindKept(e, x, r);
    hide Replaceable, RootedAt, SubstituteIdentifier, IsLvalue;
    SubstitutionMeansBinding(m, e.operand, x, r, s, t);
    var v := Eval(m, e.operand, t).value;
    assert PointsInto(m.unary(e.op, v), x) ==> PointsInto(v, x);
    hide Replacing, HasAmpersand, IsIncDec;
  }

  lemma EvalPureBinary(m: Machine, op: string, lhs: Expr, rhs: Expr, a: Value, b: Value, s: Store)
    requires Eval(m, lhs, s) == Evaluated(a, s) && Eval(m, rhs, s) == Evaluated(b, s)
    ensures Eval(m, Binary(op, lhs, rhs), s) == Evaluated(BinaryValue(m, op, a, b), s)
  {
    hide Eval, IsAnd, IsOr;
    EvalBinary(m, op, lhs, rhs, s);
  }

  lemma {:induction false} SubstitutedBinary(m: Machine, e: Expr, x: string, r: Expr, s: Store, t: Store)
    requires Replacing(m, x, r, s, t) && Replaceable(e, x) && e.Binary?
    ensures SameValue(Eval(m, SubstituteIdentifier(e, x, r), s), s, Eval(m, e, t), x)
    decreases e, 0
  {
    ReplaceableParts(e, x);
    assert SubstituteIdentifier(e, x, r) ==
           Binary(e.op, SubstituteIdentifier(e.lhs, x, r), SubstituteIdentifier(e.rhs, x, r));
    hide Replaceable, RootedAt, SubstituteIdentifier;
    SubstitutionMeansBinding(m, e.lhs, x, r, s, t);
    SubstitutionMeansBinding(m, e.rhs, x, r, s, t);
    PureInBoth(m, e.lhs, x, t);
    PureInBoth(m, e.rhs, x, t);
    var a, b := Eval(m, e.lhs, t).value, Eval(m, e.rhs, t).value;
    assert PointsInto(m.binary(e.op, a, b), x) ==> PointsInto(a, x) || PointsInto(b, x);
    EvalPureBinary(m, e.op, e.lhs, e.rhs, a, b, t);
    EvalPureBinary(m, e.op, SubstituteIdentifier(e.lhs, x, r), SubstituteIdentifier(e.rhs, x, r), a, b, s);
    hide Replacing, Eval;
  }

  lemma {:induction false} SubstitutedCast(m: Machine, e: Expr, x: string, r: Expr, s: Store, t: Store)
    requires Replacing(m, x, r, s, t) && Replaceable(e, x) && e.Cast?
    ensures SameValue(Eval(m, SubstituteIdentifier(e, x, r), s), s, Eval(m, e, t), x)
    decreases e, 0
  {
    ReplaceableParts(e, x);
    assert SubstituteIdentifier(e, x, r) == SimplifiedCast(e.targetType, SubstituteIdentifier(e.operand, x, r));
    SimplifiedCastMeansSame(m, e.targetType, SubstituteIdentifier(e.operand, x, r), s);
    hide Replaceable, RootedAt, SubstituteIdentifier, SimplifiedCast;
    SubstitutionMeansBinding(m, e.operand, x, r, s, t);
    var v := Eval(m, e.operand, t).value;
    assert PointsInto(m.cast(e.targetType, v), x) ==> PointsInto(v, x);
    hide Replacing;
  }

  lemma {:induction false} SubstitutedTernary(m: Machine, e: Expr, x: string, r: Expr, s: Store, t: Store)
    requires Replacing(m, x, r, s, t) && Replaceable(e, x) && e.Ternary?
    ensures SameValue(Eval(m, SubstituteIdentifier(e, x, r), s), s, Eval(m, e, t), x)
    decreases e, 0
  {
    ReplaceableParts(e, x);
    assert SubstituteIdentifier(e, x, r) ==
           Ternary(SubstituteIdentifier(e.condition, x, r), SubstituteIdentifier(e.trueExpression, x, r),
                   SubstituteIdentifier(e.falseExpression, x, r));
    hide Replaceable, RootedAt, SubstituteIdentifier, Replacing;
    SubstitutionMeansBinding(m, e.condition, x, r, s, t);
    SubstitutionMeansBinding(m, e.trueExpression, x, r, s, t);
    SubstitutionMeansBinding(m, e.falseExpression, x, r, s, t);
    PureInBoth(m, e.condition, x, t);
  }
}
