/**
  Constant propagation for `int`-like local variables, as a forward dataflow
  analysis: the boundary and initial facts, the merge of facts at control-flow
  joins, the kill/gen transfer of a statement, and the abstract evaluator that
  folds expressions over known constants with Java's `int` semantics.
*/
module ConstantPropagation {
  import JavaInt
  import opened Lattice
  import opened IR
  import opened Facts

  // ---------------------------------------------------------------------------
  // Which variables the analysis tracks

  /** Variables of type byte, short, int, char or boolean hold an `int` value. */
  function CanHoldInt(x: Var): (b: bool)
    ensures !b <==> x.ty.Reference? || x.ty.kind == Long || x.ty.kind == Float || x.ty.kind == Double
  {
    match x.ty
    case Primitive(k) => k == Byte || k == Short || k == Int || k == Char || k == Boolean
    case Reference(_) => false
  }

  // ---------------------------------------------------------------------------
  // Starting facts

  /** The fact at the method's entry: every `int`-holding parameter is NAC, nothing else is known. */
  ghost predicate IsBoundaryFact(f: Fact, params: seq<Var>)
  {
    && (forall x :: x in f <==> x in params && CanHoldInt(x))
    && (forall x :: x in f ==> f[x] == NAC)
  }

  method NewBoundaryFact(params: seq<Var>) returns (fact: Fact)
    ensures IsBoundaryFact(fact, params)
  {
    fact := map[];
    for i := 0 to |params|
      invariant forall x :: x in fact <==> x in params[..i] && CanHoldInt(x)
      invariant forall x :: x in fact ==> fact[x] == NAC
    {
      if CanHoldInt(params[i]) {
        fact := Update(fact, params[i], NAC);
      }
    }
    assert params[..|params|] == params;
  }

  /** Only variables that can hold an `int` ever get an entry in a fact of the analysis. */
  ghost predicate Gated(f: Fact)
  {
    forall x :: x in f ==> CanHoldInt(x)
  }

  /** The fact every other node starts from: nothing is known. */
  function NewInitialFact(): (fact: Fact)
    ensures forall x :: Get(fact, x) == Undef
  {
    map[]
  }

  // ---------------------------------------------------------------------------
  // Merging facts at a control-flow join

  /** `target` after meeting `fact` into it. */
  function MeetFacts(fact: Fact, target: Fact): (r: Fact)
    ensures r.Keys == target.Keys + fact.Keys
    ensures forall x :: Get(r, x) == MeetValue(Get(target, x), Get(fact, x))
  {
    map x | x in target.Keys + fact.Keys ::
      if x in fact then MeetValue(Get(target, x), fact[x]) else target[x]
  }

  /**
    Meets `fact` into `target`, one variable of `fact` at a time; the variables
    `fact` does not mention keep their entry in `target`.
  */
  method MeetInto(fact: Fact, target: Fact) returns (merged: Fact)
    ensures forall x :: x in fact ==> x in merged && merged[x] == MeetValue(Get(target, x), fact[x])
    ensures forall x :: x !in fact ==> (x in merged <==> x in target)
    ensures forall x :: x !in fact && x in target ==> merged[x] == target[x]
    ensures merged == MeetFacts(fact, target)
  {
    merged := target;
    var todo := fact.Keys;
    while todo != {}
      invariant todo <= fact.Keys
      invariant merged.Keys == target.Keys + (fact.Keys - todo)
      invariant forall x :: x in merged ==>
        merged[x] == if x in fact && x !in todo then MeetValue(Get(target, x), fact[x]) else target[x]
      decreases todo
    {
      var x :| x in todo;
      var tv := Get(merged, x);
      var fv := fact[x];
      merged := Update(merged, x, MeetValue(tv, fv));
      todo := todo - {x};
    }
  }

  /** Meeting is pointwise the least upper bound: it only ever adds information. */
  lemma MeetFactsUpperBound(fact: Fact, target: Fact)
    ensures FactLeq(target, MeetFacts(fact, target))
    ensures FactLeq(fact, MeetFacts(fact, target))
  {
  }

  lemma MeetFactsLeast(fact: Fact, target: Fact, bound: Fact)
    requires FactLeq(fact, bound) && FactLeq(target, bound)
    ensures FactLeq(MeetFacts(fact, target), bound)
  {
  }

  /** Meeting `fact` into `target` changes nothing exactly when `fact` is below `target`. */
  lemma {:induction false} MeetFactsAbsorbs(fact: Fact, target: Fact)
    ensures SameFact(MeetFacts(fact, target), target) <==> FactLeq(fact, target)
  {
    if SameFact(MeetFacts(fact, target), target) {
      forall x
        ensures Leq(Get(fact, x), Get(target, x))
      {
        MeetAbsorbs(Get(target, x), Get(fact, x));
      }
    }
    if FactLeq(fact, target) {
      forall x
        ensures Get(MeetFacts(fact, target), x) == Get(target, x)
      {
        MeetAbsorbs(Get(target, x), Get(fact, x));
      }
    }
  }

  // ---------------------------------------------------------------------------
  // Evaluating expressions

  /**
    Java's binary operators on two `int` operands, or None when Java gives no
    `int`: `/` and `%` by zero throw ArithmeticException. The other binary
    families (the comparisons of long, float and double values) never have two
    `int` constants as operands, so the evaluator never folds them and falls
    through to Undef. Relational operators give 1 or 0.
  */
  function JavaBinary(op: BinaryOp, i1: JavaInt.int32, i2: JavaInt.int32): (r: Option<JavaInt.int32>)
    ensures r.None? <==> op.OtherBinary? || (op.Arithmetic? && (op.aop == Div || op.aop == Rem) && i2 == 0)
    ensures op.Condition? ==> r == Some(0) || r == Some(1)
  {
    match op
    case Arithmetic(aop) =>
      (match aop
       case Add => Some(JavaInt.Add(i1, i2))
       case Sub => Some(JavaInt.Sub(i1, i2))
       case Mul => Some(JavaInt.Mul(i1, i2))
       case Div => if i2 == 0 then None else Some(JavaInt.Div(i1, i2))
       case Rem => if i2 == 0 then None else Some(JavaInt.Rem(i1, i2)))
    case Condition(cop) =>
      var holds := match cop
        case Eq => i1 == i2
        case Ne => i1 != i2
        case Lt => i1 < i2
        case Le => i1 <= i2
        case Gt => i1 > i2
        case Ge => i1 >= i2;
      Some(if holds then 1 else 0)
    case Shift(sop) =>
      (match sop
       case Shl => Some(JavaInt.Shl(i1, i2))
       case Shr => Some(JavaInt.Shr(i1, i2))
       case Ushr => Some(JavaInt.Ushr(i1, i2)))
    case Bitwise(bop) =>
      (match bop
       case Or => Some(JavaInt.Or(i1, i2))
       case And => Some(JavaInt.And(i1, i2))
       case Xor => Some(JavaInt.Xor(i1, i2)))
    case OtherBinary => None
  }

  /**
    The abstract value of `e` in `fact`. A binary expression over two constants
    is folded; one that Java cannot fold to an `int` (division by zero, another
    operator family) is Undef, not NAC.
  */
  function Evaluate(e: Exp, fact: Fact): (r: Value)
    ensures r.NAC? <==>
      || e.OtherExp?
      || (e.VarExp? && Get(fact, e.v).NAC?)
      || (e.BinaryExp? && (Get(fact, e.operand1).NAC? || Get(fact, e.operand2).NAC?))
    ensures e.BinaryExp? && r.Const? ==> Get(fact, e.operand1).Const? && Get(fact, e.operand2).Const?
  {
    match e
    case IntLiteral(i) => Const(i)
    case VarExp(x) => Get(fact, x)
    case BinaryExp(op, x, y) =>
      var v1, v2 := Get(fact, x), Get(fact, y);
      if v1.NAC? || v2.NAC? then NAC
      else if v1.Const? && v2.Const? then
        (match JavaBinary(op, v1.c, v2.c)
         case Some(k) => Const(k)
         case None => Undef)
      else Undef
    case OtherExp => NAC
  }

  /** Concrete states: the `int` value each variable holds at run time. */
  type Env = map<Var, JavaInt.int32>

  /**
    The `int` Java computes for `e` in `env`; None when it computes none. A
    binary expression of another family (`OtherBinary`) and `OtherExp` are
    outside the model and give None.
  */
  function Execute(e: Exp, env: Env): Option<JavaInt.int32>
  {
    match e
    case IntLiteral(i) => Some(i)
    case VarExp(x) => if x in env then Some(env[x]) else None
    case BinaryExp(op, x, y) =>
      if x in env && y in env then JavaBinary(op, env[x], env[y]) else None
    case OtherExp => None
  }

  /** A concrete state agrees with every constant a fact claims. */
  ghost predicate Conforms(env: Env, fact: Fact)
  {
    forall x :: Get(fact, x).Const? ==> x in env && env[x] == Get(fact, x).c
  }

  /** Soundness: a constant the evaluator reports is the value Java computes. */
  lemma {:induction false} EvaluateSound(e: Exp, fact: Fact, env: Env)
    requires Conforms(env, fact)
    ensures Evaluate(e, fact).Const? ==> Execute(e, env) == Some(Evaluate(e, fact).c)
  {
    match e
    case IntLiteral(_) =>
    case VarExp(x) =>
    case BinaryExp(op, x, y) =>
      if Evaluate(e, fact).Const? {
        assert Get(fact, x).Const? && Get(fact, y).Const?;
      }
    case OtherExp =>
  }

  /**
    Precision: when the fact pins every variable of a concrete state to its
    value, the evaluator folds exactly what Java computes, and gives Undef where
    Java computes no `int`.
  */
  lemma {:induction false} EvaluateExact(e: Exp, fact: Fact, env: Env)
    requires forall x :: Get(fact, x) == if x in env then Const(env[x]) else Undef
    requires !e.OtherExp?
    ensures Evaluate(e, fact) == match Execute(e, env) case Some(k) => Const(k) case None => Undef
  {
    match e
    case IntLiteral(_) =>
    case VarExp(x) =>
    case BinaryExp(op, x, y) =>
      assert Get(fact, x) == if x in env then Const(env[x]) else Undef;
      assert Get(fact, y) == if y in env then Const(env[y]) else Undef;
  }

  /**
    Folding: a binary expression over two constant operands is Java's result on
    them, whatever else the fact holds, or Undef when Java gives no `int`.
  */
  lemma {:induction false} EvaluateFolds(op: BinaryOp, x: Var, y: Var, fact: Fact)
    requires Get(fact, x).Const? && Get(fact, y).Const?
    ensures Evaluate(BinaryExp(op, x, y), fact) ==
      match JavaBinary(op, Get(fact, x).c, Get(fact, y).c) case Some(k) => Const(k) case None => Undef
  {
    var env := map[x := Get(fact, x).c, y := Get(fact, y).c];
    var pinned := map z | z in {x, y} :: Get(fact, z);
    assert Get(pinned, x) == Get(fact, x) && Get(pinned, y) == Get(fact, y);
    EvaluateExact(BinaryExp(op, x, y), pinned, env);
  }

  /** The evaluator is monotone: more definite operands never give a less definite result. */
  lemma {:induction false} EvaluateMonotone(e: Exp, f: Fact, g: Fact)
    requires FactLeq(f, g)
    ensures Leq(Evaluate(e, f), Evaluate(e, g))
  {
    match e
    case IntLiteral(_) =>
    case VarExp(x) =>
      assert Leq(Get(f, x), Get(g, x));
    case BinaryExp(op, x, y) =>
      assert Leq(Get(f, x), Get(g, x));
      assert Leq(Get(f, y), Get(g, y));
    case OtherExp =>
  }

  // ---------------------------------------------------------------------------
  // The transfer function

  /** `s` kills and regenerates `x`: it assigns the `int`-holding variable `x`. */
  predicate Defines(s: Stmt, x: Var)
  {
    s.Definition? && s.lhs == x && CanHoldInt(x)
  }

  /** The value a definition generates for its variable: its expression's value, or NAC. */
  function Gen(s: Stmt, inFact: Fact): Value
    requires s.Definition?
  {
    match s.rhs
    case Some(e) => Evaluate(e, inFact)
    case None => NAC
  }

  /**
    OUT = gen ∪ (IN - kill): the fact after `s`. Only the variable `s` defines
    can change; it takes the value of the right-hand side evaluated in IN.
  */
  function Transfer(s: Stmt, inFact: Fact): (out: Fact)
    ensures forall x :: !Defines(s, x) ==> Get(out, x) == Get(inFact, x)
    ensures forall x :: Defines(s, x) ==> Get(out, x) == Gen(s, inFact)
    ensures forall x :: x in out ==> x in inFact || Defines(s, x)
  {
    if s.Definition? && CanHoldInt(s.lhs) then Update(inFact, s.lhs, Gen(s, inFact)) else inFact
  }

  /**
    Applies the transfer of `s` to a copy of IN and compares the result with
    OUT: when they are the same fact OUT is kept and `changed` is false,
    otherwise OUT is replaced by the result and `changed` is true.
  */
  method TransferNode(s: Stmt, inFact: Fact, out: Fact) returns (changed: bool, newOut: Fact)
    ensures changed <==> !SameFact(Transfer(s, inFact), out)
    ensures newOut == if changed then Transfer(s, inFact) else out
    ensures SameFact(newOut, Transfer(s, inFact))
  {
    var newIn := inFact;
    match s {
      case Definition(x, rhs) =>
        if CanHoldInt(x) {
          match rhs {
            case Some(e) =>
              var val := Evaluate(e, newIn);
              newIn := Update(newIn, x, val);
            case None =>
              newIn := Update(newIn, x, NAC);
          }
        }
      case OtherStmt =>
    }
    if FactEquals(newIn, out) {
      changed, newOut := false, out;
    } else {
      changed, newOut := true, newIn;
    }
  }

  /** The transfer is monotone in IN. */
  lemma {:induction false} TransferMonotone(s: Stmt, f: Fact, g: Fact)
    requires FactLeq(f, g)
    ensures FactLeq(Transfer(s, f), Transfer(s, g))
  {
    if s.Definition? && s.rhs.Some? {
      EvaluateMonotone(s.rhs.value, f, g);
    }
    forall x
      ensures Leq(Get(Transfer(s, f), x), Get(Transfer(s, g), x))
    {
      if !Defines(s, x) {
        assert Leq(Get(f, x), Get(g, x));
      }
    }
  }
}
