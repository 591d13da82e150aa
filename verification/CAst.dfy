/** The C syntax trees of core/c_ast.h. */
module CAst {
  import opened Strings
  import opened Wrappers

  datatype CType = CType(name: string, isConst: bool, pointerDepth: int)

  datatype Expr =
    | IntegerLiteral(value: int, isHex: bool, isUnsigned: bool)
    | FloatLiteral(number: real, isFloat: bool)
    | StringLiteral(text: string)
    | Identifier(name: string, symbolType: Option<CType>, isArraySymbol: bool)
    | Unary(op: string, operand: Expr, isPrefix: bool)
    | Binary(op: string, lhs: Expr, rhs: Expr)
    | Assignment(op: string, lhs: Expr, rhs: Expr)
    | Call(callee: Expr, arguments: seq<Expr>)
    | Cast(targetType: CType, operand: Expr)
    | MemberAccess(object': Expr, memberName: string, isArrow: bool)
    | ArrayIndex(array': Expr, index: Expr)
    | Ternary(condition: Expr, trueExpression: Expr, falseExpression: Expr)

  datatype SwitchCase = SwitchCase(caseValues: seq<int>, isDefault: bool, body: seq<Stmt>)

  datatype Stmt =
    | Compound(statements: seq<Stmt>)
    | ExpressionStatement(expression: Expr)
    | VariableDeclaration(declaredType: CType, declaredName: string, initializer: Option<Expr>)
    | If(condition: Expr, thenBranch: Stmt, elseBranch: Option<Stmt>)
    | While(condition: Expr, loopBody: Stmt)
    | DoWhile(loopBody: Stmt, condition: Expr)
    | For(init: Option<Stmt>, forCondition: Option<Expr>, step: Option<Expr>, loopBody: Stmt)
    | Return(returnValue: Option<Expr>)
    | BreakStatement
    | ContinueStatement
    | Goto(target: string)
    | Label(labelName: string)
    | Case(caseValue: int, isDefaultLabel: bool)
    | Switch(condition: Expr, cases: seq<SwitchCase>)
    | Comment(commentText: string)

  function NewIdentifier(name: string): Expr { Identifier(name, None, false) }

  // ----- Operator texts -----

  predicate IsAnd(op: string) { op == "&&" }

  predicate IsOr(op: string) { op == "||" }

  predicate IsIncDec(op: string) { op == "++" || op == "--" }

  predicate HasAmpersand(op: string) { '&' in op }

  /** `*` and the combined forms that load through a cast pointer, such as `*(s32*)`. */
  predicate IsDereference(op: string) {
    !HasAmpersand(op) && (op == "*" || StartsWith(op, "*("))
  }

  /** The combined forms that read a variable as another type, such as `*(s32*)&`. */
  predicate IsReinterpretation(op: string) { HasAmpersand(op) && op != "&" }

  /** A name that is a function-pointer cast around a variable, such as `((s32 (*)())x)`. */
  predicate CastsName(name: string, variable: string) {
    StartsWith(name, "((") && EndsWith(name, ")") && EndsWith(name, ")" + variable + ")")
  }

  predicate IsLvalue(e: Expr) {
    e.Identifier? || e.MemberAccess? || e.ArrayIndex? ||
    (e.Unary? && !IsIncDec(e.op) && (IsDereference(e.op) || IsReinterpretation(e.op)))
  }
}
