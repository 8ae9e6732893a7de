/**
  The small slice of Tai-e's intermediate representation that constant
  propagation looks at: variables with their declared types, the expressions
  that may stand on the right of an assignment, and statements that do or do
  not define a variable.
*/
module IR {
  import opened JavaInt

  datatype PrimitiveType = Byte | Short | Int | Char | Boolean | Long | Float | Double

  /** A declared type: a primitive type, or any reference type (class, array, null). */
  datatype Type = Primitive(kind: PrimitiveType) | Reference(name: string)

  /** A local variable or parameter, identified by its name and declared type. */
  datatype Var = Var(name: string, ty: Type)

  datatype ArithmeticOp = Add | Sub | Mul | Div | Rem
  datatype ConditionOp = Eq | Ne | Lt | Le | Gt | Ge
  datatype ShiftOp = Shl | Shr | Ushr
  datatype BitwiseOp = Or | And | Xor

  /**
    The operator of a binary expression, grouped into the expression families
    of the IR. `OtherBinary` is a binary expression of any other family (the
    comparisons of long, float and double values, for one).
  */
  datatype BinaryOp =
    | Arithmetic(aop: ArithmeticOp)
    | Condition(cop: ConditionOp)
    | Shift(sop: ShiftOp)
    | Bitwise(bop: BitwiseOp)
    | OtherBinary

  /**
    Right-hand sides. The operands of a binary expression are variables, as in
    three-address code. `OtherExp` is every other shape (calls, casts, field and
    array loads, allocations, non-int literals, ...).
  */
  datatype Exp =
    | IntLiteral(value: int32)
    | VarExp(v: Var)
    | BinaryExp(op: BinaryOp, operand1: Var, operand2: Var)
    | OtherExp

  /**
    A statement. `Definition(lhs, Some(e))` assigns expression `e` to the
    variable `lhs`; `Definition(lhs, None)` defines `lhs` from a right-hand side
    that is not an expression. Statements that define nothing, or define
    something other than a variable (a field or array store), are `OtherStmt`.
  */
  datatype Stmt =
    | Definition(lhs: Var, rhs: Option<Exp>)
    | OtherStmt

  datatype Option<+T> = None | Some(value: T)
}
