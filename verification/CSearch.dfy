/** The searching visitors of core/c_ast_utils.cc over the traversal of core/c_ast_visitor.cc: early
    stopping finds what the whole tree holds. */
module CSearch {
  import opened CAst
  import opened Strings
  import opened Wrappers

  /** What a visitor looks for. The last six are no visitors of the source: they say what else must
      be absent for its verdicts and rewrites to mean what they should. */
  datatype Query =
    | Impurity
    | SomeCall(ignoreMathIntrinsics: bool)
    | Reference(name: string)
    | AddressOf(name: string, ignoreAssigned: bool)
    | Modification(name: string)
    | SomeLabel
    | SomeJump
    | SomeLoop
    | InnerAccess(name: string)
    | Declaration(name: string)
    | DeclarationUsing(name: string)
    | Ampersand
    | CastName(name: string)
    | DotMember(name: string)

  predicate IsName(e: Expr, name: string) { e.Identifier? && e.name == name }

  // ----- Helpers of the queries -----

  predicate IsInlineAsmIntrinsicName(name: string) {
    name == "N64Sqrtf" || name == "N64Sqrt" || name == "sqrtf" || name == "sqrt" ||
    name == "fabsf" || name == "fabs" || name == "ceilf" || name == "floorf" ||
    name == "roundf" || name == "truncf" || name == "ceil" || name == "floor" ||
    name == "round" || name == "trunc"
  }

  predicate IsInlineAsmIntrinsicCall(e: Expr) {
    e.Call? && e.callee.Identifier? && IsInlineAsmIntrinsicName(e.callee.name)
  }

  /** The variable of `*(f32*)&x`. */
  function ExtractFloatBitcastLhsVar(lhs: Expr): string {
    if lhs.Unary? && lhs.op == "*" && lhs.isPrefix && lhs.operand.Cast? &&
       (lhs.operand.targetType.name == "f32" || lhs.operand.targetType.name == "f64") &&
       lhs.operand.targetType.pointerDepth == 1 &&
       lhs.operand.operand.Unary? && lhs.operand.operand.op == "&" && lhs.operand.operand.isPrefix &&
       lhs.operand.operand.operand.Identifier?
    then lhs.operand.operand.operand.name
    else ""
  }

  function ExtractAssignedLhsVar(lhs: Expr): string {
    if lhs.Identifier? then lhs.name else ExtractFloatBitcastLhsVar(lhs)
  }

  /** A load of a volatile place that the stack pointer reaches. */
  predicate IsVolatileStackLoad(e: Expr) {
    && e.Unary? && e.isPrefix && e.op == "*" && e.operand.Cast?
    && StartsWith(e.operand.targetType.name, "volatile ")
    && Mentions(e.operand.operand, "sp")
  }

  /** The variable inside a function-pointer cast name: what follows the first `(*)())`, when only word
      characters stand between it and the closing parenthesis. */
  function FindFrom(text: string, pattern: string, i: nat): Option<nat>
    decreases |text| - i
  {
    if i + |pattern| > |text| then None
    else if text[i..i + |pattern|] == pattern then Some(i)
    else FindFrom(text, pattern, i + 1)
  }

  predicate IsWordCharacter(c: char) {
    ('a' <= c <= 'z') || ('A' <= c <= 'Z') || ('0' <= c <= '9') || c == '_'
  }

  function CalleeInside(text: string): Option<string> {
    if |text| < 10 || !StartsWith(text, "((") || text[|text| - 1] != ')' then None
    else
      var position := FindFrom(text, "(*)())", 0);
      if position.None? || position.value + 7 >= |text| then None
      else
        var inner := text[position.value + 6..|text| - 1];
        if forall i :: 0 <= i < |inner| ==> IsWordCharacter(inner[i]) then Some(inner) else None
  }

  /** The name occurs as an identifier, or inside a function-pointer cast name. */
  predicate Mentions(e: Expr, name: string)
    decreases e
  {
    match e
    case Identifier(n, _, _) => n == name || CalleeInside(n) == Some(name)
    case Unary(_, operand, _) => Mentions(operand, name)
    case Binary(_, lhs, rhs) => Mentions(lhs, name) || Mentions(rhs, name)
    case Assignment(_, lhs, rhs) => Mentions(lhs, name) || Mentions(rhs, name)
    case Call(callee, arguments) => Mentions(callee, name) || AnyMentions(arguments, name)
    case Cast(_, operand) => Mentions(operand, name)
    case MemberAccess(object', _, _) => Mentions(object', name)
    case ArrayIndex(array', index) => Mentions(array', name) || Mentions(index, name)
    case Ternary(c, t, f) => Mentions(c, name) || Mentions(t, name) || Mentions(f, name)
    case _ => false
  }

  predicate AnyMentions(es: seq<Expr>, name: string)
    decreases es
  {
    es != [] && (Mentions(es[0], name) || AnyMentions(es[1..], name))
  }

  /** The place of the expression is part of a variable. */
  predicate PlacedInside(e: Expr, name: string) {
    match e
    case Identifier(n, _, _) => n == name
    case MemberAccess(object', _, isArrow) => !isArrow && PlacedInside(object', name)
    case Unary(op, operand, _) => IsReinterpretation(op) && PlacedInside(operand, name)
    case _ => false
  }

  /** Writes a member of a variable, or takes its address. */
  predicate AccessesInside(e: Expr, name: string) {
    || (e.Assignment? && !e.lhs.Identifier? && PlacedInside(e.lhs, name))
    || (e.Unary? && IsIncDec(e.op) && !e.operand.Identifier? && PlacedInside(e.operand, name))
    || (e.Unary? && HasAmpersand(e.op) && (!e.isPrefix || !e.operand.Identifier?) && PlacedInside(e.operand, name))
  }

  // ----- What counts as a hit -----

  predicate HitsExpr(q: Query, e: Expr) {
    match q
    case Impurity => e.Call? || e.Assignment? || (e.Unary? && (IsIncDec(e.op) || IsVolatileStackLoad(e)))
    case SomeCall(ignoreMath) => e.Call? && !(ignoreMath && IsInlineAsmIntrinsicCall(e))
    case Reference(name) => IsName(e, name)
    case AddressOf(name, _) => e.Unary? && e.isPrefix && HasAmpersand(e.op) && IsName(e.operand, name)
    case Modification(name) =>
      (e.Assignment? && IsName(e.lhs, name)) || (e.Unary? && IsIncDec(e.op) && IsName(e.operand, name))
    case InnerAccess(name) => AccessesInside(e, name)
    case Ampersand => e.Unary? && HasAmpersand(e.op)
    case CastName(name) => e.Identifier? && CastsName(e.name, name)
    case DotMember(name) => e.MemberAccess? && !e.isArrow && PlacedInside(e.object', name)
    case _ => false
  }

  predicate HitsStmt(q: Query, st: Stmt) {
    match q
    case SomeLabel => st.Label?
    case SomeJump => st.BreakStatement? || st.ContinueStatement? || st.Goto? || st.Label?
    case SomeLoop => st.While? || st.DoWhile? || st.For?
    case Declaration(name) => st.VariableDeclaration? && st.declaredName == name
    case DeclarationUsing(name) =>
      st.VariableDeclaration? && (st.declaredName == name || InOption(Reference(name), st.initializer))
    case _ => false
  }

  /** The left side of this assignment is not searched. */
  predicate SkipsLhs(q: Query, e: Expr) {
    q.AddressOf? && q.ignoreAssigned && e.Assignment? && e.op == "=" && ExtractAssignedLhsVar(e.lhs) != ""
  }

  // ----- What the tree holds -----

  predicate InExpr(q: Query, e: Expr)
    decreases e
  {
    HitsExpr(q, e) ||
    match e
    case Unary(_, operand, _) => InExpr(q, operand)
    case Binary(_, lhs, rhs) => InExpr(q, lhs) || InExpr(q, rhs)
    case Assignment(_, lhs, rhs) => (!SkipsLhs(q, e) && InExpr(q, lhs)) || InExpr(q, rhs)
    case Call(callee, arguments) => InExpr(q, callee) || InExprs(q, arguments)
    case Cast(_, operand) => InExpr(q, operand)
    case MemberAccess(object', _, _) => InExpr(q, object')
    case ArrayIndex(array', index) => InExpr(q, array') || InExpr(q, index)
    case Ternary(c, t, f) => InExpr(q, c) || InExpr(q, t) || InExpr(q, f)
    case _ => false
  }

  predicate InExprs(q: Query, es: seq<Expr>)
    decreases es
  {
    es != [] && (InExprs(q, es[..|es| - 1]) || InExpr(q, es[|es| - 1]))
  }

  predicate InOption(q: Query, e: Option<Expr>) { e.Some? && InExpr(q, e.value) }

  predicate InStmt(q: Query, st: Stmt)
    decreases st, 1
  {
    HitsStmt(q, st) ||
    match st
    case Compound(statements) => InStmts(q, statements)
    case ExpressionStatement(e) => InExpr(q, e)
    case VariableDeclaration(_, _, init) => InOption(q, init)
    case If(c, thenBranch, elseBranch) =>
      InExpr(q, c) || InStmt(q, thenBranch) || (elseBranch.Some? && InStmt(q, elseBranch.value))
    case While(c, body) => InExpr(q, c) || InStmt(q, body)
    case DoWhile(body, c) => InStmt(q, body) || InExpr(q, c)
    case For(init, c, step, body) =>
      (init.Some? && InStmt(q, init.value)) || InOption(q, c) || InOption(q, step) || InStmt(q, body)
    case Return(value) => InOption(q, value)
    case Switch(c, cases) => InExpr(q, c) || InCases(q, cases)
    case _ => false
  }

  predicate InStmts(q: Query, stmts: seq<Stmt>)
    decreases stmts, 0
  {
    stmts != [] && (InStmts(q, stmts[..|stmts| - 1]) || InStmt(q, stmts[|stmts| - 1]))
  }

  predicate InCases(q: Query, cases: seq<SwitchCase>)
    decreases cases, 0
  {
    cases != [] && (InCases(q, cases[..|cases| - 1]) || InStmts(q, cases[|cases| - 1].body))
  }

  // ----- The visitor -----

  class SearchVisitor {
    const query: Query
    var found: bool
    var shouldStop: bool

    ghost predicate Valid()
      reads this
    {
      shouldStop == found
    }

    constructor (q: Query)
      ensures Valid() && query == q && !found
    {
      query, found, shouldStop := q, false, false;
    }

    method Hit()
      modifies this
      ensures Valid() && found
    {
      found, shouldStop := true, true;
    }

    method VisitExpression(e: Expr)
      requires Valid()
      modifies this
      ensures Valid() && (found <==> old(found) || InExpr(query, e))
      decreases e, 1
    {
      if shouldStop {
        return;
      }
      hide HitsExpr, SkipsLhs;
      if HitsExpr(query, e) {
        Hit();
        return;
      }
      VisitChildren(e);
    }

    /** The default traversal of each kind of expression. */
    method VisitChildren(e: Expr)
      requires Valid() && !found && !HitsExpr(query, e)
      modifies this
      ensures Valid() && (found <==> InExpr(query, e))
      decreases e, 0
    {
      hide HitsExpr, SkipsLhs;
      match e
      case Unary(_, operand, _) =>
        VisitExpression(operand);
      case Binary(_, lhs, rhs) =>
        VisitExpression(lhs);
        if shouldStop {
          return;
        }
        VisitExpression(rhs);
      case Assignment(_, lhs, rhs) =>
        if !SkipsLhs(query, e) {
          VisitExpression(lhs);
          if shouldStop {
            return;
          }
        }
        VisitExpression(rhs);
      case Call(callee, arguments) =>
        VisitExpression(callee);
        if shouldStop {
          return;
        }
        VisitArguments(arguments);
      case Cast(_, operand) =>
        VisitExpression(operand);
      case MemberAccess(object', _, _) =>
        VisitExpression(object');
      case ArrayIndex(array', index) =>
        VisitExpression(array');
        if shouldStop {
          return;
        }
        VisitExpression(index);
      case Ternary(c, t, f) =>
        VisitExpression(c);
        if shouldStop {
          return;
        }
        VisitExpression(t);
        if shouldStop {
          return;
        }
        VisitExpression(f);
      case _ =>
    }

    method VisitArguments(es: seq<Expr>)
      requires Valid() && !found
      modifies this
      ensures Valid() && (found <==> InExprs(query, es))
      decreases es, 0
    {
      hide InExpr;
      for i := 0 to |es|
        invariant Valid() && !found && !InExprs(query, es[..i])
      {
        assert es[..i + 1][..i] == es[..i];
        VisitExpression(es[i]);
        if shouldStop {
          InLongerExprs(query, es, i + 1);
          return;
        }
      }
      assert es[..|es|] == es;
    }

    method VisitOption(e: Option<Expr>)
      requires Valid() && !found
      modifies this
      ensures Valid() && (found <==> InOption(query, e))
    {
      if e.Some? {
        VisitExpression(e.value);
      }
    }

    method VisitStatement(st: Stmt)
      requires Valid()
      modifies this
      ensures Valid() && (found <==> old(found) || InStmt(query, st))
      decreases st, 1
    {
      if shouldStop {
        return;
      }
      hide HitsStmt, InExpr;
      if HitsStmt(query, st) {
        Hit();
        return;
      }
      VisitSubstatements(st);
    }

    /** The default traversal of each kind of statement. */
    method VisitSubstatements(st: Stmt)
      requires Valid() && !found && !HitsStmt(query, st)
      modifies this
      ensures Valid() && (found <==> InStmt(query, st))
      decreases st, 0
    {
      hide HitsStmt, InExpr;
      match st
      case Compound(statements) =>
        VisitCompound(statements);
      case ExpressionStatement(e) =>
        VisitExpression(e);
      case VariableDeclaration(_, _, init) =>
        VisitOption(init);
      case If(c, thenBranch, elseBranch) =>
        VisitExpression(c);
        if shouldStop {
          return;
        }
        VisitStatement(thenBranch);
        if shouldStop {
          return;
        }
        if elseBranch.Some? {
          VisitStatement(elseBranch.value);
        }
      case While(c, body) =>
        VisitExpression(c);
        if shouldStop {
          return;
        }
        VisitStatement(body);
      case DoWhile(body, c) =>
        VisitStatement(body);
        if shouldStop {
          return;
        }
        VisitExpression(c);
      case For(init, c, step, body) =>
        if init.Some? {
          VisitStatement(init.value);
          if shouldStop {
            return;
          }
        }
        VisitOption(c);
        if shouldStop {
          return;
        }
        VisitOption(step);
        if shouldStop {
          return;
        }
        VisitStatement(body);
      case Return(value) =>
        VisitOption(value);
      case Switch(c, cases) =>
        VisitExpression(c);
        if shouldStop {
          return;
        }
        VisitCases(cases);
      case _ =>
    }

    method VisitCompound(stmts: seq<Stmt>)
      requires Valid() && !found
      modifies this
      ensures Valid() && (found <==> InStmts(query, stmts))
      decreases stmts, 0
    {
      hide InStmt;
      for i := 0 to |stmts|
        invariant Valid() && !found && !InStmts(query, stmts[..i])
      {
        assert stmts[..i + 1][..i] == stmts[..i];
        VisitStatement(stmts[i]);
        if shouldStop {
          InLongerStmts(query, stmts, i + 1);
          return;
        }
      }
      assert stmts[..|stmts|] == stmts;
    }

    method VisitCases(cases: seq<SwitchCase>)
      requires Valid() && !found
      modifies this
      ensures Valid() && (found <==> InCases(query, cases))
      decreases cases, 0
    {
      hide InStmts;
      for i := 0 to |cases|
        invariant Valid() && !found && !InCases(query, cases[..i])
      {
        assert cases[..i + 1][..i] == cases[..i];
        VisitCompound(cases[i].body);
        if shouldStop {
          InLongerCases(query, cases, i + 1);
          return;
        }
      }
      assert cases[..|cases|] == cases;
    }
  }

  lemma {:induction false} InLongerExprs(q: Query, es: seq<Expr>, i: nat)
    requires i <= |es| && InExprs(q, es[..i])
    ensures InExprs(q, es)
  {
    if i < |es| {
      assert es[..|es| - 1][..i] == es[..i];
      InLongerExprs(q, es[..|es| - 1], i);
    } else {
      assert es[..i] == es;
    }
  }

  lemma {:induction false} InLongerStmts(q: Query, stmts: seq<Stmt>, i: nat)
    requires i <= |stmts| && InStmts(q, stmts[..i])
    ensures InStmts(q, stmts)
  {
    hide InStmt;
    if i < |stmts| {
      assert stmts[..|stmts| - 1][..i] == stmts[..i];
      InLongerStmts(q, stmts[..|stmts| - 1], i);
    } else {
      assert stmts[..i] == stmts;
    }
  }

  lemma {:induction false} InLongerCases(q: Query, cases: seq<SwitchCase>, i: nat)
    requires i <= |cases| && InCases(q, cases[..i])
    ensures InCases(q, cases)
  {
    hide InStmts;
    if i < |cases| {
      assert cases[..|cases| - 1][..i] == cases[..i];
      InLongerCases(q, cases[..|cases| - 1], i);
    } else {
      assert cases[..i] == cases;
    }
  }

  // ----- The searches of core/c_ast_utils.cc -----

  method SearchExpression(q: Query, e: Expr) returns (found: bool)
    ensures found <==> InExpr(q, e)
  {
    var visitor := new SearchVisitor(q);
    visitor.VisitExpression(e);
    found := visitor.found;
  }

  method SearchStatement(q: Query, st: Stmt) returns (found: bool)
    ensures found <==> InStmt(q, st)
  {
    var visitor := new SearchVisitor(q);
    visitor.VisitStatement(st);
    found := visitor.found;
  }

  ghost predicate IsPure(e: Expr) { !InExpr(Impurity, e) }

  method IsPureExpression(e: Expr) returns (pure: bool)
    ensures pure <==> IsPure(e)
  {
    var impure := SearchExpression(Impurity, e);
    pure := !impure;
  }

  function CommutedBinaryOperator(op: string): Option<string> {
    if op == "+" || op == "*" || op == "&" || op == "|" || op == "^" || op == "==" || op == "!=" then Some(op)
    else if op == "<" then Some(">")
    else if op == ">" then Some("<")
    else if op == "<=" then Some(">=")
    else if op == ">=" then Some("<=")
    else None
  }

  method IsCommutableBinary(op: string, lhs: Expr, rhs: Expr) returns (commutable: bool)
    ensures commutable <==> CommutedBinaryOperator(op).Some? && IsPure(lhs) && IsPure(rhs)
  {
    if CommutedBinaryOperator(op).None? {
      return false;
    }
    var left := IsPureExpression(lhs);
    if !left {
      return false;
    }
    commutable := IsPureExpression(rhs);
  }
}
