/** Renaming a variable to a fresh one (core/c_ast_utils.cc, SubstituteIdentifierInStatement) commutes
    with execution: expressions. */
module CRename {
  import opened CAst
  import opened CSearch
  import opened CSemantics
  import opened CSubstitution
  import opened CUnchanged
  import opened Strings
  import opened Wrappers

  // ----- Exchanging two names -----

  function SwapName(n: string, x: string, y: string): string {
    if n == x then y else if n == y then x else n
  }

  function SwapLoc(l: Loc, x: string, y: string): Loc {
    match l
    case Var(name) => Var(SwapName(name, x, y))
    case Cell(_) => l
    case Field(base, f) => Field(SwapLoc(base, x, y), f)
    case Element(base, i) => Element(SwapLoc(base, x, y), i)
  }

  function SwapValue(v: Value, x: string, y: string): Value {
    if v.PtrV? then PtrV(SwapLoc(v.target, x, y)) else v
  }

  function SwapValues(vs: seq<Value>, x: string, y: string): (r: seq<Value>)
    ensures |r| == |vs|
  {
    seq(|vs|, i requires 0 <= i < |vs| => SwapValue(vs[i], x, y))
  }

  lemma {:induction false} SwapLocTwice(l: Loc, x: string, y: string)
    ensures SwapLoc(SwapLoc(l, x, y), x, y) == l
  {
    match l
    case Field(base, _) => SwapLocTwice(base, x, y);
    case Element(base, _) => SwapLocTwice(base, x, y);
    case _ =>
  }

  /** t is s with x and y exchanged, in places and in pointers. */
  ghost predicate Swapped(s: Store, t: Store, x: string, y: string) {
    forall l :: Load(t, SwapLoc(l, x, y)) == SwapValue(Load(s, l), x, y)
  }

  lemma SwappedPut(s: Store, t: Store, l: Loc, v: Value, x: string, y: string)
    requires Swapped(s, t, x, y)
    ensures Swapped(Put(s, l, v), Put(t, SwapLoc(l, x, y), SwapValue(v, x, y)), x, y)
  {
    hide SwapLoc, SwapValue;
    forall k
      ensures Load(Put(t, SwapLoc(l, x, y), SwapValue(v, x, y)), SwapLoc(k, x, y)) ==
              SwapValue(Load(Put(s, l, v), k), x, y)
    {
      SwapLocTwice(k, x, y);
      SwapLocTwice(l, x, y);
      LoadPut(s, l, v, k);
      LoadPut(t, SwapLoc(l, x, y), SwapValue(v, x, y), SwapLoc(k, x, y));
      assert Load(t, SwapLoc(k, x, y)) == SwapValue(Load(s, k), x, y);
      hide Load, Put;
    }
    hide Load, Put;
  }

  lemma LoadPut(s: Store, l: Loc, v: Value, k: Loc)
    ensures Load(Put(s, l, v), k) == if k == l then v else Load(s, k)
  {
  }

  lemma SwappedLoad(s: Store, t: Store, l: Loc, x: string, y: string)
    requires Swapped(s, t, x, y)
    ensures Load(t, SwapLoc(l, x, y)) == SwapValue(Load(s, l), x, y)
  {
  }

  lemma SwappedPlaces(v: Value, i: Value, x: string, y: string)
    ensures Pointee(SwapValue(v, x, y)) == SwapLoc(Pointee(v), x, y)
    ensures ElementOf(SwapValue(v, x, y), SwapValue(i, x, y)) == SwapLoc(ElementOf(v, i), x, y)
    ensures Truthy(SwapValue(v, x, y)) == Truthy(v)
    ensures AsInt(SwapValue(v, x, y)) == AsInt(v)
  {
  }

  /** Operators, casts, literals and calls do not look at variable names. */
  ghost predicate Nameless(m: Machine, x: string, y: string) {
    && (forall op: string, a: Value :: m.unary(op, SwapValue(a, x, y)) == SwapValue(m.unary(op, a), x, y))
    && (forall op: string, a: Value, b: Value ::
         m.binary(op, SwapValue(a, x, y), SwapValue(b, x, y)) == SwapValue(m.binary(op, a, b), x, y))
    && (forall t: CType, a: Value :: m.cast(t, SwapValue(a, x, y)) == SwapValue(m.cast(t, a), x, y))
    && (forall r: real :: SwapValue(m.number(r), x, y) == m.number(r))
    && (forall r: string :: SwapValue(m.text(r), x, y) == m.text(r))
    && forall f: Value, vs: seq<Value>, s: Store, t: Store {:trigger m.call(f, vs, s), Swapped(s, t, x, y)} ::
         Swapped(s, t, x, y) ==>
           && m.call(SwapValue(f, x, y), SwapValues(vs, x, y), t).0 == SwapValue(m.call(f, vs, s).0, x, y)
           && Swapped(m.call(f, vs, s).1, m.call(SwapValue(f, x, y), SwapValues(vs, x, y), t).1, x, y)
  }

  ghost predicate SwappedEval(a: Evaluated, b: Evaluated, x: string, y: string) {
    b.value == SwapValue(a.value, x, y) && Swapped(a.store, b.store, x, y)
  }

  ghost predicate SwappedPlace(a: Placed, b: Placed, x: string, y: string) {
    b.loc == SwapLoc(a.loc, x, y) && Swapped(a.store, b.store, x, y)
  }

  ghost predicate SwappedAll(a: EvaluatedAll, b: EvaluatedAll, x: string, y: string) {
    b.values == SwapValues(a.values, x, y) && Swapped(a.store, b.store, x, y)
  }

  // ----- The shape of a renamed expression -----

  /** y is fresh, and no function-pointer cast names x. */
  ghost predicate Renamable(e: Expr, x: string, y: string) {
    !InExpr(Reference(y), e) && !InExpr(CastName(x), e)
  }

  ghost predicate AllRenamable(es: seq<Expr>, x: string, y: string) {
    !InExprs(Reference(y), es) && !InExprs(CastName(x), es)
  }

  lemma RenamableParts(e: Expr, x: string, y: string)
    requires Renamable(e, x, y)
    ensures e.Identifier? ==> e.name != y && !CastsName(e.name, x)
    ensures e.Unary? ==> Renamable(e.operand, x, y)
    ensures e.Binary? ==> Renamable(e.lhs, x, y) && Renamable(e.rhs, x, y)
    ensures e.Assignment? ==> Renamable(e.lhs, x, y) && Renamable(e.rhs, x, y)
    ensures e.Call? ==> Renamable(e.callee, x, y) && AllRenamable(e.arguments, x, y)
    ensures e.Cast? ==> Renamable(e.operand, x, y)
    ensures e.MemberAccess? ==> Renamable(e.object', x, y)
    ensures e.ArrayIndex? ==> Renamable(e.array', x, y) && Renamable(e.index, x, y)
    ensures e.Ternary? ==>
      Renamable(e.condition, x, y) && Renamable(e.trueExpression, x, y) && Renamable(e.falseExpression, x, y)
  {
    ExprParts(Reference(y), e);
    ExprParts(CastName(x), e);
    hide InExpr, InExprs, CastsName;
  }

  function Renamed(e: Expr, x: string, y: string): Expr { SubstituteIdentifier(e, x, NewIdentifier(y)) }

  function RenamedAll(es: seq<Expr>, x: string, y: string): (r: seq<Expr>)
    ensures |r| == |es|
  {
    SubstituteArguments(es, x, NewIdentifier(y))
  }

  /** With an identifier as replacement the rewrite is the plain one, up to the cast shortcut. */
  lemma RenamedShape(e: Expr, x: string, y: string)
    ensures e.Identifier? && !CastsName(e.name, x) ==>
      Renamed(e, x, y) == (if e.name == x then NewIdentifier(y) else e)
    ensures e.Unary? ==> Renamed(e, x, y) == Unary(e.op, Renamed(e.operand, x, y), e.isPrefix)
    ensures e.Binary? ==> Renamed(e, x, y) == Binary(e.op, Renamed(e.lhs, x, y), Renamed(e.rhs, x, y))
    ensures e.Assignment? ==> Renamed(e, x, y) == Assignment(e.op, Renamed(e.lhs, x, y), Renamed(e.rhs, x, y))
    ensures e.Call? ==> Renamed(e, x, y) == Call(Renamed(e.callee, x, y), RenamedAll(e.arguments, x, y))
    ensures e.Cast? ==> Renamed(e, x, y) == SimplifiedCast(e.targetType, Renamed(e.operand, x, y))
    ensures e.MemberAccess? ==> Renamed(e, x, y) == MemberAccess(Renamed(e.object', x, y), e.memberName, e.isArrow)
    ensures e.ArrayIndex? ==> Renamed(e, x, y) == ArrayIndex(Renamed(e.array', x, y), Renamed(e.index, x, y))
    ensures e.Ternary? ==>
      Renamed(e, x, y) ==
      Ternary(Renamed(e.condition, x, y), Renamed(e.trueExpression, x, y), Renamed(e.falseExpression, x, y))
    ensures e.IntegerLiteral? || e.FloatLiteral? || e.StringLiteral? ==> Renamed(e, x, y) == e
  {
    hide CastsName, IsIntBitcast, IsSignedBitcast, HasAmpersand, MayBitcast, SimplifiedCast, SubstituteArguments;
  }

  lemma RenamedAllLast(es: seq<Expr>, x: string, y: string)
    requires es != []
    ensures var n := |es| - 1;
            RenamedAll(es, x, y) == RenamedAll(es[..n], x, y) + [Renamed(es[n], x, y)]
  {
    var n := |es| - 1;
    RenamedShape(es[n], x, y);
    if es[n].Unary? && IsName(es[n].operand, x) {
      RenamedName(es[n].operand, x, y);
    }
    hide IsSignedBitcast, MayBitcast;
    assert SubstituteArgument(es[n], n, x, NewIdentifier(y)) == Renamed(es[n], x, y);
  }

  lemma RenamedName(e: Expr, x: string, y: string)
    requires IsName(e, x)
    ensures Renamed(e, x, y) == NewIdentifier(y)
  {
  }

  lemma RenamedKind(e: Expr, x: string, y: string)
    requires Renamable(e, x, y)
    ensures IsLvalue(Renamed(e, x, y)) <==> IsLvalue(e)
    ensures Renamed(e, x, y).Unary? <==> e.Unary?
  {
    RenamableParts(e, x, y);
    RenamedShape(e, x, y);
    hide Renamable, Renamed, CastsName, HasAmpersand, IsDereference, IsIncDec, IsReinterpretation;
  }

  // ----- Renaming commutes with evaluation -----

  lemma {:induction false} RenamedEval(m: Machine, e: Expr, s: Store, t: Store, x: string, y: string)
    requires Nameless(m, x, y) && CastsDirectly(m) && Renamable(e, x, y) && Swapped(s, t, x, y)
    ensures SwappedEval(Eval(m, e, s), Eval(m, Renamed(e, x, y), t), x, y)
    decreases e, 2
  {
    RenamedKind(e, x, y);
    if IsLvalue(e) {
      RenamedLvalue(m, e, s, t, x, y);
      hide Nameless, CastsDirectly, Renamable, Swapped, SwapLoc, Renamed;
      var p, q := LvaluePlace(m, e, s), LvaluePlace(m, Renamed(e, x, y), t);
      SwappedLoad(p.store, q.store, p.loc, x, y);
      RenamedShape(e, x, y);
      EvalLvalue(m, e, s);
      EvalLvalue(m, Renamed(e, x, y), t);
      if e.Unary? {
        NamelessUnary(m, e.op, Load(p.store, p.loc), x, y);
      }
      hide LvaluePlace;
    } else {
      RenamedOther(m, e, s, t, x, y);
    }
  }

  lemma EvalLvalue(m: Machine, e: Expr, s: Store)
    requires IsLvalue(e)
    ensures var p := LvaluePlace(m, e, s);
      var v := Load(p.store, p.loc);
      Eval(m, e, s) == Evaluated(if e.Unary? && IsReinterpretation(e.op) then m.unary(e.op, v) else v, p.store)
  {
  }

  lemma NamelessUnary(m: Machine, op: string, a: Value, x: string, y: string)
    requires Nameless(m, x, y)
    ensures m.unary(op, SwapValue(a, x, y)) == SwapValue(m.unary(op, a), x, y)
  {
  }

  lemma {:induction false} RenamedPlace(m: Machine, e: Expr, s: Store, t: Store, x: string, y: string)
    requires Nameless(m, x, y) && CastsDirectly(m) && Renamable(e, x, y) && Swapped(s, t, x, y)
    ensures SwappedPlace(Place(m, e, s), Place(m, Renamed(e, x, y), t), x, y)
    decreases e, 3
  {
    RenamedKind(e, x, y);
    hide Nameless, CastsDirectly, Renamable, Swapped, SwapLoc, Renamed;
    if IsLvalue(e) {
      RenamedLvalue(m, e, s, t, x, y);
    } else {
      RenamedEval(m, e, s, t, x, y);
      SwappedPlaces(Eval(m, e, s).value, IntV(0), x, y);
    }
    hide LvaluePlace, Eval;
  }

  lemma {:induction false} RenamedLvalue(m: Machine, e: Expr, s: Store, t: Store, x: string, y: string)
    requires Nameless(m, x, y) && CastsDirectly(m) && Renamable(e, x, y) && Swapped(s, t, x, y)
    requires IsLvalue(e) && IsLvalue(Renamed(e, x, y))
    ensures SwappedPlace(LvaluePlace(m, e, s), LvaluePlace(m, Renamed(e, x, y), t), x, y)
    decreases e, 1
  {
    RenamableParts(e, x, y);
    RenamedShape(e, x, y);
    hide Nameless, CastsDirectly, Renamable, Swapped, Renamed;
    match e
    case Identifier(_, _, _) =>
    case Unary(op, operand, _) =>
      RenamedUnaryLvalue(m, e, s, t, x, y);
    case MemberAccess(_, _, _) =>
      RenamedMember(m, e, s, t, x, y);
    case ArrayIndex(_, _) =>
      RenamedElement(m, e, s, t, x, y);
  }

  lemma SwappedFollowed(m: Machine, op: string, v: Value, x: string, y: string)
    requires Nameless(m, x, y)
    ensures Pointee(Followed(m, op, SwapValue(v, x, y))) == SwapLoc(Pointee(Followed(m, op, v)), x, y)
  {
    NamelessUnary(m, op, v, x, y);
    SwappedPlaces(v, IntV(0), x, y);
    SwappedPlaces(m.unary(op, v), IntV(0), x, y);
    hide Nameless, SwapLoc, SwapValue, Pointee;
  }

  lemma {:induction false} RenamedUnaryLvalue(m: Machine, e: Expr, s: Store, t: Store, x: string, y: string)
    requires Nameless(m, x, y) && CastsDirectly(m) && Renamable(e, x, y) && Swapped(s, t, x, y)
    requires IsLvalue(e) && IsLvalue(Renamed(e, x, y)) && e.Unary?
    ensures SwappedPlace(LvaluePlace(m, e, s), LvaluePlace(m, Renamed(e, x, y), t), x, y)
    decreases e, 0
  {
    hide Nameless, CastsDirectly, Renamable, Swapped, Renamed, Eval, LvaluePlace, Place, IsLvalue, IsReinterpretation,
      SwapLoc, SwapValue, InExpr, Followed, Pointee;
    RenamableParts(e, x, y);
    RenamedShape(e, x, y);
    var r := Renamed(e.operand, x, y);
    if IsReinterpretation(e.op) {
      RenamedPlace(m, e.operand, s, t, x, y);
      PlaceReinterpretation(m, e.op, e.operand, e.isPrefix, s);
      PlaceReinterpretation(m, e.op, r, e.isPrefix, t);
    } else {
      RenamedEval(m, e.operand, s, t, x, y);
      SwappedFollowed(m, e.op, Eval(m, e.operand, s).value, x, y);
      PlaceDereference(m, e.op, e.operand, e.isPrefix, s);
      PlaceDereference(m, e.op, r, e.isPrefix, t);
    }
  }

  lemma FieldSwapped(l: Loc, f: string, x: string, y: string)
    ensures SwapLoc(Field(l, f), x, y) == Field(SwapLoc(l, x, y), f)
  {
  }

  lemma {:induction false} RenamedMember(m: Machine, e: Expr, s: Store, t: Store, x: string, y: string)
    requires Nameless(m, x, y) && CastsDirectly(m) && Renamable(e, x, y) && Swapped(s, t, x, y) && e.MemberAccess?
    ensures SwappedPlace(LvaluePlace(m, e, s), LvaluePlace(m, Renamed(e, x, y), t), x, y)
    decreases e, 0
  {
    hide Nameless, CastsDirectly, Renamable, Swapped, Renamed, Eval, LvaluePlace, Place, SwapLoc, SwapValue, InExpr;
    RenamableParts(e, x, y);
    RenamedShape(e, x, y);
    PlaceMember(m, e.object', e.memberName, e.isArrow, s);
    PlaceMember(m, Renamed(e.object', x, y), e.memberName, e.isArrow, t);
    FieldSwapped(Place(m, e.object', s).loc, e.memberName, x, y);
    FieldSwapped(Pointee(Eval(m, e.object', s).value), e.memberName, x, y);
    if e.isArrow {
      RenamedEval(m, e.object', s, t, x, y);
      SwappedPlaces(Eval(m, e.object', s).value, IntV(0), x, y);
    } else {
      RenamedPlace(m, e.object', s, t, x, y);
    }
  }

  lemma {:induction false} RenamedElement(m: Machine, e: Expr, s: Store, t: Store, x: string, y: string)
    requires Nameless(m, x, y) && CastsDirectly(m) && Renamable(e, x, y) && Swapped(s, t, x, y) && e.ArrayIndex?
    ensures SwappedPlace(LvaluePlace(m, e, s), LvaluePlace(m, Renamed(e, x, y), t), x, y)
    decreases e, 0
  {
    hide Nameless, CastsDirectly, Renamable, Swapped, Renamed, Eval, LvaluePlace, SwapLoc, InExpr;
    RenamableParts(e, x, y);
    RenamedShape(e, x, y);
    PlaceElement(m, e.array', e.index, s);
    PlaceElement(m, Renamed(e.array', x, y), Renamed(e.index, x, y), t);
    RenamedEval(m, e.array', s, t, x, y);
    var a, a' := Eval(m, e.array', s), Eval(m, Renamed(e.array', x, y), t);
    RenamedEval(m, e.index, a.store, a'.store, x, y);
    SwappedPlaces(a.value, Eval(m, e.index, a.store).value, x, y);
  }

  lemma {:induction false} RenamedOther(m: Machine, e: Expr, s: Store, t: Store, x: string, y: string)
    requires Nameless(m, x, y) && CastsDirectly(m) && Renamable(e, x, y) && Swapped(s, t, x, y) && !IsLvalue(e)
    ensures SwappedEval(Eval(m, e, s), Eval(m, Renamed(e, x, y), t), x, y)
    decreases e, 1
  {
    RenamableParts(e, x, y);
    RenamedShape(e, x, y);
    hide CastsDirectly, Renamable, Swapped, Renamed;
    match e
    case IntegerLiteral(_, _, _) =>
    case FloatLiteral(_, _) =>
    case StringLiteral(_) =>
    case Unary(_, _, _) =>
      RenamedUnary(m, e, s, t, x, y);
    case Binary(_, _, _) =>
      RenamedBinary(m, e, s, t, x, y);
    case Assignment(_, _, _) =>
      RenamedAssignment(m, e, s, t, x, y);
    case Call(_, _) =>
      RenamedCall(m, e, s, t, x, y);
    case Cast(_, _) =>
      RenamedCast(m, e, s, t, x, y);
    case Ternary(_, _, _) =>
      RenamedTernary(m, e, s, t, x, y);
    case _ =>
  }

  lemma {:induction false} RenamedUnary(m: Machine, e: Expr, s: Store, t: Store, x: string, y: string)
    requires Nameless(m, x, y) && CastsDirectly(m) && Renamable(e, x, y) && Swapped(s, t, x, y)
    requires !IsLvalue(e) && e.Unary?
    ensures SwappedEval(Eval(m, e, s), Eval(m, Renamed(e, x, y), t), x, y)
    decreases e, 0
  {
    hide Nameless, CastsDirectly, Renamable, Swapped, Renamed, SwapLoc, IsLvalue, InExpr;
    RenamableParts(e, x, y);
    RenamedShape(e, x, y);
    RenamedKind(e, x, y);
    if IsIncDec(e.op) || HasAmpersand(e.op) {
      RenamedPlace(m, e.operand, s, t, x, y);
      var p, q := Place(m, e.operand, s), Place(m, Renamed(e.operand, x, y), t);
      var before := Load(p.store, p.loc);
      SwappedLoad(p.store, q.store, p.loc, x, y);
      NamelessUnary(m, e.op, before, x, y);
      SwappedPut(p.store, q.store, p.loc, m.unary(e.op, before), x, y);
    } else {
      RenamedEval(m, e.operand, s, t, x, y);
      NamelessUnary(m, e.op, Eval(m, e.operand, s).value, x, y);
    }
    hide Place, Put, Load;
  }

  lemma SwappedBinaryValue(m: Machine, op: string, a: Value, b: Value, x: string, y: string)
    requires Nameless(m, x, y)
    ensures BinaryValue(m, op, SwapValue(a, x, y), SwapValue(b, x, y)) == SwapValue(BinaryValue(m, op, a, b), x, y)
    ensures SwapValue(IntV(0), x, y) == IntV(0) && SwapValue(IntV(1), x, y) == IntV(1)
  {
    hide Nameless, SwapLoc, Truthy, IsAnd, IsOr;
    SwappedPlaces(a, IntV(0), x, y);
    SwappedPlaces(b, IntV(0), x, y);
    NamelessBinary(m, op, a, b, x, y);
  }

  lemma {:induction false} RenamedBinary(m: Machine, e: Expr, s: Store, t: Store, x: string, y: string)
    requires Nameless(m, x, y) && CastsDirectly(m) && Renamable(e, x, y) && Swapped(s, t, x, y) && e.Binary?
    ensures SwappedEval(Eval(m, e, s), Eval(m, Renamed(e, x, y), t), x, y)
    decreases e, 0
  {
    hide Nameless, CastsDirectly, Renamable, Swapped, Renamed, Eval, BinaryValue, Truthy, SwapValue, InExpr, IsAnd, IsOr;
    RenamableParts(e, x, y);
    RenamedShape(e, x, y);
    EvalBinary(m, e.op, e.lhs, e.rhs, s);
    EvalBinary(m, e.op, Renamed(e.lhs, x, y), Renamed(e.rhs, x, y), t);
    RenamedEval(m, e.lhs, s, t, x, y);
    var a, a' := Eval(m, e.lhs, s), Eval(m, Renamed(e.lhs, x, y), t);
    RenamedEval(m, e.rhs, a.store, a'.store, x, y);
    var b := Eval(m, e.rhs, a.store);
    SwappedPlaces(a.value, IntV(0), x, y);
    SwappedBinaryValue(m, e.op, a.value, b.value, x, y);
  }

  lemma NamelessBinary(m: Machine, op: string, a: Value, b: Value, x: string, y: string)
    requires Nameless(m, x, y)
    ensures m.binary(op, SwapValue(a, x, y), SwapValue(b, x, y)) == SwapValue(m.binary(op, a, b), x, y)
  {
  }

  lemma {:induction false} RenamedAssignment(m: Machine, e: Expr, s: Store, t: Store, x: string, y: string)
    requires Nameless(m, x, y) && CastsDirectly(m) && Renamable(e, x, y) && Swapped(s, t, x, y) && e.Assignment?
    ensures SwappedEval(Eval(m, e, s), Eval(m, Renamed(e, x, y), t), x, y)
    decreases e, 0
  {
    hide Nameless, CastsDirectly, Renamable, Swapped, Renamed, SwapLoc, SwapValue, Eval, Place, Put, Load, InExpr;
    RenamableParts(e, x, y);
    RenamedShape(e, x, y);
    EvalAssignment(m, e.op, e.lhs, e.rhs, s);
    EvalAssignment(m, e.op, Renamed(e.lhs, x, y), Renamed(e.rhs, x, y), t);
    RenamedPlace(m, e.lhs, s, t, x, y);
    var p, p' := Place(m, e.lhs, s), Place(m, Renamed(e.lhs, x, y), t);
    RenamedEval(m, e.rhs, p.store, p'.store, x, y);
    var v, v' := Eval(m, e.rhs, p.store), Eval(m, Renamed(e.rhs, x, y), p'.store);
    var before := Load(v.store, p.loc);
    SwappedLoad(v.store, v'.store, p.loc, x, y);
    NamelessBinary(m, e.op, before, v.value, x, y);
    SwappedPut(v.store, v'.store, p.loc, AssignedValue(m, e.op, before, v.value), x, y);
  }

  lemma NamelessCall(
    m: Machine, f: Value, vs: seq<Value>, s: Store, t: Store, x: string, y: string)
    requires Nameless(m, x, y) && Swapped(s, t, x, y)
    ensures m.call(SwapValue(f, x, y), SwapValues(vs, x, y), t).0 == SwapValue(m.call(f, vs, s).0, x, y)
    ensures Swapped(m.call(f, vs, s).1, m.call(SwapValue(f, x, y), SwapValues(vs, x, y), t).1, x, y)
  {
    hide Swapped, SwapValue, SwapValues;
    assert m.call(f, vs, s) == m.call(f, vs, s);
  }

  lemma {:induction false} RenamedCall(m: Machine, e: Expr, s: Store, t: Store, x: string, y: string)
    requires Nameless(m, x, y) && CastsDirectly(m) && Renamable(e, x, y) && Swapped(s, t, x, y) && e.Call?
    ensures SwappedEval(Eval(m, e, s), Eval(m, Renamed(e, x, y), t), x, y)
    decreases e, 0
  {
    hide Nameless, CastsDirectly, Renamable, AllRenamable, Swapped, Renamed, RenamedAll, SwapLoc, SwapValue, SwapValues, InExpr;
    RenamableParts(e, x, y);
    RenamedShape(e, x, y);
    RenamedEval(m, e.callee, s, t, x, y);
    var f, f' := Eval(m, e.callee, s), Eval(m, Renamed(e.callee, x, y), t);
    RenamedEvalAll(m, e.arguments, f.store, f'.store, x, y);
    var vs, vs' := EvalAll(m, e.arguments, f.store), EvalAll(m, RenamedAll(e.arguments, x, y), f'.store);
    NamelessCall(m, f.value, vs.values, vs.store, vs'.store, x, y);
    hide EvalAll;
  }

  lemma AllRenamableLast(es: seq<Expr>, x: string, y: string)
    requires AllRenamable(es, x, y) && es != []
    ensures AllRenamable(es[..|es| - 1], x, y) && Renamable(es[|es| - 1], x, y)
  {
    hide InExpr;
  }

  lemma {:induction false} RenamedEvalAll(m: Machine, es: seq<Expr>, s: Store, t: Store, x: string, y: string)
    requires Nameless(m, x, y) && CastsDirectly(m) && AllRenamable(es, x, y) && Swapped(s, t, x, y)
    ensures SwappedAll(EvalAll(m, es, s), EvalAll(m, RenamedAll(es, x, y), t), x, y)
    decreases es, 0
  {
    hide Nameless, CastsDirectly, Renamable, AllRenamable, Swapped, Renamed, RenamedAll, SwapValue, Eval, InExpr;
    if es != [] {
      var n := |es| - 1;
      var front, e := es[..n], es[n];
      assert es == front + [e];
      RenamedAllLast(es, x, y);
      AllRenamableLast(es, x, y);
      EvalAllLast(m, front, e, s);
      EvalAllLast(m, RenamedAll(front, x, y), Renamed(e, x, y), t);
      RenamedEvalAll(m, front, s, t, x, y);
      var a, a' := EvalAll(m, front, s), EvalAll(m, RenamedAll(front, x, y), t);
      RenamedEval(m, e, a.store, a'.store, x, y);
    }
  }

  lemma {:induction false} RenamedCast(m: Machine, e: Expr, s: Store, t: Store, x: string, y: string)
    requires Nameless(m, x, y) && CastsDirectly(m) && Renamable(e, x, y) && Swapped(s, t, x, y) && e.Cast?
    ensures SwappedEval(Eval(m, e, s), Eval(m, Renamed(e, x, y), t), x, y)
    decreases e, 0
  {
    RenamableParts(e, x, y);
    RenamedShape(e, x, y);
    SimplifiedCastMeansSame(m, e.targetType, Renamed(e.operand, x, y), t);
    var v := Eval(m, e.operand, s).value;
    assert m.cast(e.targetType, SwapValue(v, x, y)) == SwapValue(m.cast(e.targetType, v), x, y);
    hide Nameless, CastsDirectly, Renamable, Swapped, Renamed, SwapValue, SimplifiedCast;
    RenamedEval(m, e.operand, s, t, x, y);
  }

  lemma {:induction false} RenamedTernary(m: Machine, e: Expr, s: Store, t: Store, x: string, y: string)
    requires Nameless(m, x, y) && CastsDirectly(m) && Renamable(e, x, y) && Swapped(s, t, x, y) && e.Ternary?
    ensures SwappedEval(Eval(m, e, s), Eval(m, Renamed(e, x, y), t), x, y)
    decreases e, 0
  {
    hide Nameless, CastsDirectly, Renamable, Swapped, Renamed, SwapValue, Eval, InExpr;
    RenamableParts(e, x, y);
    RenamedShape(e, x, y);
    EvalTernary(m, e.condition, e.trueExpression, e.falseExpression, s);
    EvalTernary(
      m, Renamed(e.condition, x, y), Renamed(e.trueExpression, x, y), Renamed(e.falseExpression, x, y), t);
    RenamedEval(m, e.condition, s, t, x, y);
    var c, c' := Eval(m, e.condition, s), Eval(m, Renamed(e.condition, x, y), t);
    SwappedPlaces(c.value, IntV(0), x, y);
    RenamedEval(m, e.trueExpression, c.store, c'.store, x, y);
    RenamedEval(m, e.falseExpression, c.store, c'.store, x, y);
  }

  // ----- Renaming an absent name -----

  ghost predicate Absent(e: Expr, x: string) { !InExpr(Reference(x), e) && !InExpr(CastName(x), e) }

  ghost predicate AllAbsent(es: seq<Expr>, x: string) { !InExprs(Reference(x), es) && !InExprs(CastName(x), es) }

  lemma AbsentParts(e: Expr, x: string)
    requires Absent(e, x)
    ensures e.Identifier? ==> e.name != x && !CastsName(e.name, x)
    ensures e.Unary? ==> Absent(e.operand, x)
    ensures e.Binary? ==> Absent(e.lhs, x) && Absent(e.rhs, x)
    ensures e.Assignment? ==> Absent(e.lhs, x) && Absent(e.rhs, x)
    ensures e.Call? ==> Absent(e.callee, x) && AllAbsent(e.arguments, x)
    ensures e.Cast? ==> Absent(e.operand, x)
    ensures e.MemberAccess? ==> Absent(e.object', x)
    ensures e.ArrayIndex? ==> Absent(e.array', x) && Absent(e.index, x)
    ensures e.Ternary? ==> Absent(e.condition, x) && Absent(e.trueExpression, x) && Absent(e.falseExpression, x)
  {
    ExprParts(Reference(x), e);
    ExprParts(CastName(x), e);
    hide InExpr, InExprs, CastsName;
  }

  lemma AbsentKind(e: Expr, x: string, y: string)
    requires Absent(e, x)
    ensures IsLvalue(Renamed(e, x, y)) <==> IsLvalue(e)
  {
    AbsentParts(e, x);
    RenamedShape(e, x, y);
    hide Absent, Renamed, CastsName, HasAmpersand, IsDereference, IsIncDec, IsReinterpretation;
  }

  /** Renaming a name that does not occur changes no meaning. */
  lemma {:induction false} AbsentEval(m: Machine, e: Expr, s: Store, x: string, y: string)
    requires CastsDirectly(m) && Absent(e, x)
    ensures Eval(m, Renamed(e, x, y), s) == Eval(m, e, s)
    decreases e, 2
  {
    AbsentKind(e, x, y);
    if IsLvalue(e) {
      AbsentLvalue(m, e, s, x, y);
      RenamedShape(e, x, y);
      AbsentParts(e, x);
      EvalLvalue(m, e, s);
      EvalLvalue(m, Renamed(e, x, y), s);
      hide Eval, LvaluePlace, Renamed, Absent, CastsDirectly;
    } else {
      AbsentOther(m, e, s, x, y);
    }
  }

  lemma {:induction false} AbsentPlace(m: Machine, e: Expr, s: Store, x: string, y: string)
    requires CastsDirectly(m) && Absent(e, x)
    ensures Place(m, Renamed(e, x, y), s) == Place(m, e, s)
    decreases e, 3
  {
    AbsentKind(e, x, y);
    hide CastsDirectly, Absent, Renamed, Eval, LvaluePlace, IsLvalue;
    if IsLvalue(e) {
      AbsentLvalue(m, e, s, x, y);
    } else {
      AbsentEval(m, e, s, x, y);
    }
  }

  lemma {:induction false} AbsentLvalue(m: Machine, e: Expr, s: Store, x: string, y: string)
    requires CastsDirectly(m) && Absent(e, x) && IsLvalue(e) && IsLvalue(Renamed(e, x, y))
    ensures LvaluePlace(m, Renamed(e, x, y), s) == LvaluePlace(m, e, s)
    decreases e, 1
  {
    AbsentParts(e, x);
    RenamedShape(e, x, y);
    hide CastsDirectly, Absent, Renamed, Eval, Place, IsDereference, IsIncDec, IsReinterpretation;
    match e
    case Identifier(_, _, _) =>
    case Unary(_, operand, _) =>
      AbsentPlace(m, operand, s, x, y);
      AbsentEval(m, operand, s, x, y);
    case MemberAccess(object', _, _) =>
      AbsentPlace(m, object', s, x, y);
      AbsentEval(m, object', s, x, y);
    case ArrayIndex(array', index) =>
      AbsentEval(m, array', s, x, y);
      AbsentEval(m, index, Eval(m, array', s).store, x, y);
  }

  lemma {:induction false} AbsentOther(m: Machine, e: Expr, s: Store, x: string, y: string)
    requires CastsDirectly(m) && Absent(e, x) && !IsLvalue(e)
    ensures Eval(m, Renamed(e, x, y), s) == Eval(m, e, s)
    decreases e, 1
  {
    AbsentParts(e, x);
    RenamedShape(e, x, y);
    AbsentKind(e, x, y);
    hide Absent, Renamed, IsDereference, IsReinterpretation, Place, SimplifiedCast;
    match e
    case Unary(_, operand, _) =>
      AbsentPlace(m, operand, s, x, y);
      AbsentEval(m, operand, s, x, y);
    case Binary(op, lhs, rhs) =>
      AbsentEval(m, lhs, s, x, y);
      AbsentEval(m, rhs, Eval(m, lhs, s).store, x, y);
      EvalBinary(m, op, lhs, rhs, s);
      EvalBinary(m, op, Renamed(lhs, x, y), Renamed(rhs, x, y), s);
      hide CastsDirectly;
    case Assignment(_, lhs, rhs) =>
      AbsentPlace(m, lhs, s, x, y);
      AbsentEval(m, rhs, Place(m, lhs, s).store, x, y);
      hide CastsDirectly;
    case Call(callee, arguments) =>
      AbsentEval(m, callee, s, x, y);
      AbsentEvalAll(m, arguments, Eval(m, callee, s).store, x, y);
      hide CastsDirectly, RenamedAll;
    case Cast(type', operand) =>
      AbsentEval(m, operand, s, x, y);
      SimplifiedCastMeansSame(m, type', Renamed(operand, x, y), s);
      hide CastsDirectly;
    case Ternary(c, yes, no) =>
      AbsentEval(m, c, s, x, y);
      AbsentEval(m, yes, Eval(m, c, s).store, x, y);
      AbsentEval(m, no, Eval(m, c, s).store, x, y);
      hide CastsDirectly;
    case _ =>
  }

  lemma {:induction false} AbsentEvalAll(m: Machine, es: seq<Expr>, s: Store, x: string, y: string)
    requires CastsDirectly(m) && AllAbsent(es, x)
    ensures EvalAll(m, RenamedAll(es, x, y), s) == EvalAll(m, es, s)
    decreases es, 0
  {
    if es != [] {
      var n := |es| - 1;
      var front, e := es[..n], es[n];
      assert es == front + [e];
      RenamedAllLast(es, x, y);
      assert AllAbsent(front, x) && Absent(e, x);
      EvalAllLast(m, front, e, s);
      EvalAllLast(m, RenamedAll(front, x, y), Renamed(e, x, y), s);
      hide CastsDirectly, Absent, AllAbsent, Renamed, RenamedAll, Eval, EvalAll;
      AbsentEvalAll(m, front, s, x, y);
      AbsentEval(m, e, EvalAll(m, front, s).store, x, y);
    }
  }
}
