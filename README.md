# Constant propagation and the work-list solver of Tai-e (assignment A2)

This project models the intraprocedural constant-propagation analysis of the
Tai-e static-analysis framework and the forward work-list solver that drives it,
and proves properties of both.

- `java_int.dfy` (module `JavaInt`): Java's 32-bit `int` as the Java Language
  Specification (Java SE 17) defines it. Addition, subtraction and multiplication
  wrap (sections 15.18.2 and 15.17.1). `/` truncates toward zero and `%` takes the
  sign of the dividend, with `MIN_VALUE / -1 == MIN_VALUE` (sections 15.17.2 and
  15.17.3). `<<`, `>>` and `>>>` use only the low five bits of the distance
  (section 15.19). `&`, `|` and `^` work bit by bit on the two's-complement
  pattern (section 15.22.1).
- `lattice.dfy` (module `Lattice`): the flat lattice `Undef | Const(c) | NAC` and
  `meetValue`. In the information order Undef <= Const(c) <= NAC, `meetValue` is
  the least upper bound. The analysis calls it a meet because it draws the order
  upside down.
- `ir.dfy` (module `IR`): the slice of the intermediate representation the
  analysis looks at. It has typed variables, right-hand-side expressions whose
  binary operands are variables, and statements that do or do not define a
  variable.
- `fact.dfy` (module `Facts`): a fact maps variables to values. An absent
  variable is Undef. Two facts are equal when they agree on every lookup.
- `constprop.dfy` (module `ConstantPropagation`): `canHoldInt`, the boundary
  and initial facts, `meetInto`, `evaluate` and `transferNode`.
  - `evaluate` is proved sound against the concrete Java evaluation, and
    proved exact when the fact pins every variable.
  - `evaluate` and the transfer are proved monotone.
- `solver.dfy` (module `WorkListSolver`): `doSolveForward` over a control-flow
  graph whose nodes are `0 .. N-1`, with the IN and OUT facts held in two arrays
  that the solver updates in place.
  - The loop keeps an invariant. Every non-entry node has not overshot the
    dataflow equations. Every non-entry node off the work list satisfies them.
  - A measure proves the loop terminates. It combines the lattice levels still
    open to each node's OUT fact with the work-list length.
  - At exit every non-entry node satisfies `OUT = transfer(IN)` and
    `IN = meet of the predecessors' OUT`. Meeting any predecessor's OUT into IN
    changes nothing.
  - The result is the least solution from the entry's OUT fact. It is below
    every solution of the dataflow inequalities, so two runs give the same
    facts.
  - The non-entry facts mention only variables that can hold an `int`.
  - `doSolveBackward` always fails with an unsupported-operation outcome.

## Model

| member | source | states |
|---|---|---|
| `JavaInt.Wrap` | A2/tai-e/src/main/java/pascal/taie/analysis/dataflow/analysis/constprop/ConstantPropagation.java:182-190 | narrowing is the identity on values that fit in an `int` and keeps the low 32 bits (the result is congruent to the input modulo 2^32), which is how `+`, `-` and `*` overflow |
| `JavaInt.TruncDiv` | A2/tai-e/src/main/java/pascal/taie/analysis/dataflow/analysis/constprop/ConstantPropagation.java:191-196 | the quotient rounds toward zero: `b*q` is no larger than `a` in magnitude, the remainder `a - b*q` is smaller than `b` in magnitude and is zero or has the sign of `a` |
| `JavaInt.DivRemIdentity` | A2/tai-e/src/main/java/pascal/taie/analysis/dataflow/analysis/constprop/ConstantPropagation.java:191-202 | `(a / b) * b + a % b == a` in wrapping `int` arithmetic for every non-zero `b`, including `MIN_VALUE / -1` |
| `JavaInt.RemSign` | A2/tai-e/src/main/java/pascal/taie/analysis/dataflow/analysis/constprop/ConstantPropagation.java:197-202 | `a % b` is smaller than `b` in magnitude and is zero or has the sign of the dividend |
| `JavaInt.ShiftDistanceIsMask` | A2/tai-e/src/main/java/pascal/taie/analysis/dataflow/analysis/constprop/ConstantPropagation.java:230-238 | the shift distance used by `<<`, `>>` and `>>>` equals `s & 0x1f` |
| `JavaInt.UshrOfNonNegative` | A2/tai-e/src/main/java/pascal/taie/analysis/dataflow/analysis/constprop/ConstantPropagation.java:233-238 | on a non-negative left operand `>>>` and `>>` give the same result |
| `JavaInt.AndAllOnes` | A2/tai-e/src/main/java/pascal/taie/analysis/dataflow/analysis/constprop/ConstantPropagation.java:246-248 | `a & -1 == a`: `-1` is all ones in two's complement |
| `JavaInt.XorSelf` | A2/tai-e/src/main/java/pascal/taie/analysis/dataflow/analysis/constprop/ConstantPropagation.java:249-251 | `a ^ a == 0` for every `int` |
| `JavaInt.CornerCases` | A2/tai-e/src/main/java/pascal/taie/analysis/dataflow/analysis/constprop/ConstantPropagation.java:182-238 | worked corner cases: `MAX_VALUE + 1 == MIN_VALUE`, `MIN_VALUE / -1 == MIN_VALUE`, `MIN_VALUE % -1 == 0`, `-7 / 2 == -3`, `-7 % 2 == -1`, `7 % -2 == 1`, `1 << 31 == MIN_VALUE`, `1 << 32 == 1`, `-8 >> 1 == -4`, `-1 >>> 28 == 15` |
| `Lattice.LeqHeight` | A2/tai-e/src/main/java/pascal/taie/analysis/dataflow/solver/WorkListSolver.java:48-64 | every strict step up the lattice climbs a level of a height-2 lattice, which bounds how often a fact can grow |
| `Lattice.LeqIsPartialOrder` | A2/tai-e/src/main/java/pascal/taie/analysis/dataflow/analysis/constprop/ConstantPropagation.java:86-99 | the information order is reflexive, antisymmetric and transitive |
| `Lattice.MeetValue` | A2/tai-e/src/main/java/pascal/taie/analysis/dataflow/analysis/constprop/ConstantPropagation.java:86-99 | the result is above both arguments and below every common upper bound: it is the least upper bound in Undef <= Const <= NAC |
| `Lattice.MeetNAC` | A2/tai-e/src/main/java/pascal/taie/analysis/dataflow/analysis/constprop/ConstantPropagation.java:87-88 | NAC on either side gives NAC |
| `Lattice.MeetUndef` | A2/tai-e/src/main/java/pascal/taie/analysis/dataflow/analysis/constprop/ConstantPropagation.java:89-90 | Undef on either side gives the other argument |
| `Lattice.MeetConstants` | A2/tai-e/src/main/java/pascal/taie/analysis/dataflow/analysis/constprop/ConstantPropagation.java:91-96 | equal constants give that constant, different constants give NAC |
| `Lattice.MeetCommutative` | A2/tai-e/src/main/java/pascal/taie/analysis/dataflow/analysis/constprop/ConstantPropagation.java:86-99 | the meet does not depend on the order of its arguments |
| `Lattice.MeetIdempotent` | A2/tai-e/src/main/java/pascal/taie/analysis/dataflow/analysis/constprop/ConstantPropagation.java:86-99 | meeting a value with itself gives the value |
| `Lattice.MeetAssociative` | A2/tai-e/src/main/java/pascal/taie/analysis/dataflow/analysis/constprop/ConstantPropagation.java:86-99 | the meet is associative over all three variants |
| `Lattice.MeetAbsorbs` | A2/tai-e/src/main/java/pascal/taie/analysis/dataflow/analysis/constprop/ConstantPropagation.java:86-99 | `meetValue(a, b) == a` exactly when `b` is below `a` |
| `Lattice.MeetMonotone` | A2/tai-e/src/main/java/pascal/taie/analysis/dataflow/analysis/constprop/ConstantPropagation.java:86-99 | larger arguments never give a smaller meet |
| `Facts.Update` | A2/tai-e/src/main/java/pascal/taie/analysis/dataflow/analysis/constprop/ConstantPropagation.java:118-120 | the updated variable reads the new value, every other variable keeps its value, and the keys are the old keys plus the updated variable |
| `Facts.FactEquals` | A2/tai-e/src/main/java/pascal/taie/analysis/dataflow/analysis/constprop/ConstantPropagation.java:127 | the executable fact comparison holds exactly when the two facts agree on every variable |
| `ConstantPropagation.CanHoldInt` | A2/tai-e/src/main/java/pascal/taie/analysis/dataflow/analysis/constprop/ConstantPropagation.java:138-151 | false exactly for reference types and for `long`, `float` and `double`; true for `byte`, `short`, `int`, `char` and `boolean` |
| `ConstantPropagation.NewBoundaryFact` | A2/tai-e/src/main/java/pascal/taie/analysis/dataflow/analysis/constprop/ConstantPropagation.java:53-64 | the fact holds exactly the parameters that can hold an `int`, each mapped to NAC |
| `ConstantPropagation.NewInitialFact` | A2/tai-e/src/main/java/pascal/taie/analysis/dataflow/analysis/constprop/ConstantPropagation.java:67-71 | every variable is Undef |
| `ConstantPropagation.MeetFacts` | A2/tai-e/src/main/java/pascal/taie/analysis/dataflow/analysis/constprop/ConstantPropagation.java:74-81 | the merged fact's keys are the union of both key sets, and every variable reads the meet of its target and source values |
| `ConstantPropagation.MeetInto` | A2/tai-e/src/main/java/pascal/taie/analysis/dataflow/analysis/constprop/ConstantPropagation.java:74-81 | each variable of the source is set to the meet of its old target value and its source value; variables absent from the source keep their target entry (or stay absent); the result is `MeetFacts` |
| `ConstantPropagation.MeetFactsUpperBound` | A2/tai-e/src/main/java/pascal/taie/analysis/dataflow/analysis/constprop/ConstantPropagation.java:74-81 | the merged fact is above both the target and the source |
| `ConstantPropagation.MeetFactsLeast` | A2/tai-e/src/main/java/pascal/taie/analysis/dataflow/analysis/constprop/ConstantPropagation.java:74-81 | the merged fact is below every common upper bound of the two facts |
| `ConstantPropagation.MeetFactsAbsorbs` | A2/tai-e/src/main/java/pascal/taie/analysis/dataflow/analysis/constprop/ConstantPropagation.java:74-81 | meeting a fact into a target leaves the target unchanged exactly when the fact is below the target |
| `ConstantPropagation.JavaBinary` | A2/tai-e/src/main/java/pascal/taie/analysis/dataflow/analysis/constprop/ConstantPropagation.java:176-253 | no `int` results exactly for division or remainder by zero and for operator families outside arithmetic, condition, shift and bitwise; a relational operator gives 1 or 0 |
| `ConstantPropagation.Evaluate` | A2/tai-e/src/main/java/pascal/taie/analysis/dataflow/analysis/constprop/ConstantPropagation.java:160-260 | NAC exactly for another expression shape, a NAC variable, or a binary expression with a NAC operand; a constant binary result needs two constant operands |
| `ConstantPropagation.EvaluateSound` | A2/tai-e/src/main/java/pascal/taie/analysis/dataflow/analysis/constprop/ConstantPropagation.java:160-256 | in every concrete state that agrees with the fact's constants, a constant the evaluator reports is the value Java computes |
| `ConstantPropagation.EvaluateExact` | A2/tai-e/src/main/java/pascal/taie/analysis/dataflow/analysis/constprop/ConstantPropagation.java:176-256 | when the fact pins every variable to its concrete value, the evaluator gives exactly Java's result on literals, variables and binary expressions, and Undef where Java computes no `int` (division by zero) |
| `ConstantPropagation.EvaluateFolds` | A2/tai-e/src/main/java/pascal/taie/analysis/dataflow/analysis/constprop/ConstantPropagation.java:168-253 | a binary expression over two constant operands evaluates to `Const` of Java's result on them, whatever else the fact holds, or to Undef when Java gives no `int` |
| `ConstantPropagation.EvaluateMonotone` | A2/tai-e/src/main/java/pascal/taie/analysis/dataflow/analysis/constprop/ConstantPropagation.java:160-260 | a larger fact never gives a smaller value |
| `ConstantPropagation.Transfer` | A2/tai-e/src/main/java/pascal/taie/analysis/dataflow/analysis/constprop/ConstantPropagation.java:103-125 | every variable the statement does not define keeps its IN value; a defined `int`-holding variable gets the right-hand side evaluated in IN, or NAC when the right-hand side is not an expression |
| `ConstantPropagation.TransferNode` | A2/tai-e/src/main/java/pascal/taie/analysis/dataflow/analysis/constprop/ConstantPropagation.java:102-133 | reports a change exactly when the transferred fact differs from OUT; OUT is kept when unchanged and replaced by the transferred fact otherwise |
| `ConstantPropagation.TransferMonotone` | A2/tai-e/src/main/java/pascal/taie/analysis/dataflow/analysis/constprop/ConstantPropagation.java:103-125 | a larger IN never gives a smaller OUT |
| `WorkListSolver.MeetPredsUpper` | A2/tai-e/src/main/java/pascal/taie/analysis/dataflow/solver/WorkListSolver.java:53-55 | after the predecessor loop IN is above its old value and above every predecessor's OUT |
| `WorkListSolver.MeetPredsLeast` | A2/tai-e/src/main/java/pascal/taie/analysis/dataflow/solver/WorkListSolver.java:53-55 | the predecessor loop never goes beyond a common upper bound of the old IN and the predecessors' OUT facts |
| `WorkListSolver.MeetPredsGated` | A2/tai-e/src/main/java/pascal/taie/analysis/dataflow/solver/WorkListSolver.java:53-55 | meeting in predecessors' OUT facts that mention only `int`-holding variables keeps IN that way |
| `WorkListSolver.JoinOutsMonotone` | A2/tai-e/src/main/java/pascal/taie/analysis/dataflow/solver/WorkListSolver.java:53-55 | the meet of the predecessors' OUT facts grows when the OUT facts grow |
| `WorkListSolver.InitialWorkList` | A2/tai-e/src/main/java/pascal/taie/analysis/dataflow/solver/WorkListSolver.java:40-46 | the seeded list holds exactly the non-entry nodes, each once, in node order |
| `WorkListSolver.MeetPredecessors` | A2/tai-e/src/main/java/pascal/taie/analysis/dataflow/solver/WorkListSolver.java:53-55 | only IN[cn] changes, and it becomes the old IN[cn] with every predecessor's OUT met in, first to last |
| `WorkListSolver.ProcessNode` | A2/tai-e/src/main/java/pascal/taie/analysis/dataflow/solver/WorkListSolver.java:53-57 | only IN[cn] and OUT[cn] change; IN[cn] absorbs the predecessors' OUT facts, and OUT[cn] is replaced by the transfer exactly when the reported change is true |
| `WorkListSolver.PotentialShrinks` | A2/tai-e/src/main/java/pascal/taie/analysis/dataflow/solver/WorkListSolver.java:48-64 | when an OUT fact strictly grows, the set of lattice levels still open to the OUT facts strictly shrinks |
| `WorkListSolver.StepGrows` | A2/tai-e/src/main/java/pascal/taie/analysis/dataflow/solver/WorkListSolver.java:50-63 | in one iteration IN[cn] is only accumulated into and stays below the meet of the predecessors' OUT; every OUT fact only grows; the OUT facts stay untouched when no change is reported |
| `WorkListSolver.StepWorkList` | A2/tai-e/src/main/java/pascal/taie/analysis/dataflow/solver/WorkListSolver.java:50-63 | after removing the head and appending the successors the work list still holds only non-entry nodes |
| `WorkListSolver.StepBounded` | A2/tai-e/src/main/java/pascal/taie/analysis/dataflow/solver/WorkListSolver.java:48-64 | after an iteration every non-entry node's OUT is below the transfer of its IN, and its IN is below the meet of its predecessors' OUT |
| `WorkListSolver.StepStable` | A2/tai-e/src/main/java/pascal/taie/analysis/dataflow/solver/WorkListSolver.java:48-64 | after an iteration every non-entry node off the work list has `OUT = transfer(IN)` and an IN above each predecessor's OUT |
| `WorkListSolver.StepBelow` | A2/tai-e/src/main/java/pascal/taie/analysis/dataflow/solver/WorkListSolver.java:50-63 | one iteration never lifts IN[cn] or OUT[cn] above a solution of the dataflow inequalities that the facts were below |
| `WorkListSolver.StepPreserves` | A2/tai-e/src/main/java/pascal/taie/analysis/dataflow/solver/WorkListSolver.java:48-64 | one iteration keeps the loop invariant and keeps the facts below every solution; either an OUT fact strictly grew, or no OUT fact changed and the list got shorter |
| `WorkListSolver.LeastSolutionUnique` | A2/tai-e/src/main/java/pascal/taie/analysis/dataflow/solver/WorkListSolver.java:39-65 | two solutions each below the other are the same facts at every node, so the least solution is unique |
| `WorkListSolver.InitialState` | A2/tai-e/src/main/java/pascal/taie/analysis/dataflow/solver/WorkListSolver.java:40-46 | the seeded state, with every non-entry node queued and the boundary and empty facts installed, meets the loop invariant and is below every solution |
| `WorkListSolver.Iterate` | A2/tai-e/src/main/java/pascal/taie/analysis/dataflow/solver/WorkListSolver.java:48-64 | the loop terminates with an empty work list, keeps the entry's facts, and leaves the facts at a fixpoint of the invariant and below every solution |
| `WorkListSolver.FixpointAtExit` | A2/tai-e/src/main/java/pascal/taie/analysis/dataflow/solver/WorkListSolver.java:48-64 | with an empty work list the facts solve the dataflow inequalities, and every non-entry node has `OUT = transfer(IN)` and `IN = meet of the predecessors' OUT`, and meeting any predecessor's OUT into IN changes nothing |
| `WorkListSolver.DoSolveForward` | A2/tai-e/src/main/java/pascal/taie/analysis/dataflow/solver/WorkListSolver.java:39-65 | the loop terminates; the entry's facts are untouched; every non-entry node ends at a fixpoint of the dataflow equations; its facts mention only `int`-holding variables; the result is a solution and is below every solution from the same entry fact, so it is the least one |
| `WorkListSolver.DoSolveBackward` | A2/tai-e/src/main/java/pascal/taie/analysis/dataflow/solver/WorkListSolver.java:67-70 | always fails with an unsupported-operation outcome |

## Left out

- The printing of each OUT fact in the solver loop (`WorkListSolver.java:58`): console output with no effect on the facts.
- The constructor, `ID`, `isForward` and the configuration plumbing (`ConstantPropagation.java:41-50`): framework bootstrapping.
- The generic solver over any analysis: `doSolveForward` is specialised to the constant-propagation meet and transfer.
- `CPFact`, `Value`, `DataflowResult` and `Solver` are not part of this model.
  - A fact is a map in which an absent variable is Undef.
  - An explicitly stored Undef entry is allowed. Fact equality is therefore pointwise on lookups rather than map equality.
  - `out.copyFrom(newIn)` is modelled as replacing OUT by the transferred fact. Within the solver OUT is always below the transferred fact, so a key-by-key copy gives the same fact.
  - Installing the boundary and initial facts is a precondition of `DoSolveForward`.
- In-place mutation of fact objects: each IN and OUT fact is a map value in an array slot, and an update reassigns the slot. The model has no aliasing between facts.
- The Tai-e intermediate representation and control-flow graph.
  - They are replaced by small datatypes. A variable is identified by its name and declared type.
  - A definition of something other than a local variable, and a statement without a definition, are both `OtherStmt`.
  - A right-hand side that is not an expression is `Definition(x, None)`.
  - Expression shapes other than `int` literals, variables and binary expressions are `OtherExp`.
  - A binary expression outside the four `int` families is `OtherBinary`.
  - Node iteration order is node number order.
- The fall-throughs at `ConstantPropagation.java:98` (meeting two values that are neither NAC, Undef nor both constants) and from a constant-operand binary expression to `:256` (a switch without a matching operator) cannot happen with exhaustive datatypes.
- `MeetInto` visits the source's variables in an unspecified order (`x :| x in todo`), as iterating over a hash map's key set does; the result does not depend on it.
