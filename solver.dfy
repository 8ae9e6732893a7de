/**
  The work-list solver, specialised to constant propagation. Nodes of the
  control-flow graph are 0 .. N-1; the per-node IN and OUT facts live in two
  arrays indexed by node, and the solver updates them in place.

  Forward solving seeds a FIFO work list with every node but the entry, then
  repeatedly takes the head, meets the OUT fact of each predecessor into the
  node's IN fact, applies the node's transfer, and appends all successors when
  OUT changed. At exit the facts solve the dataflow equations
  IN[n] = meet of OUT[p] over the predecessors p of n, OUT[n] = Transfer(n, IN[n])
  for every node but the entry.
*/
module WorkListSolver {
  import opened Lattice
  import opened IR
  import opened Facts
  import opened ConstantPropagation

  /**
    A control-flow graph: the statement at each node, each node's predecessors
    and successors, the entry node, and the method's parameters.
  */
  datatype CFG = CFG(entry: nat, stmts: seq<Stmt>, preds: seq<seq<nat>>, succs: seq<seq<nat>>, params: seq<Var>)

  /** Edges join existing nodes, predecessors and successors describe the same edges, and nothing flows into the entry. */
  ghost predicate WellFormed(g: CFG)
  {
    && g.entry < |g.stmts|
    && |g.preds| == |g.stmts| && |g.succs| == |g.stmts|
    && (forall n, j :: 0 <= n < |g.stmts| && 0 <= j < |g.preds[n]| ==> g.preds[n][j] < |g.stmts|)
    && (forall n, j :: 0 <= n < |g.stmts| && 0 <= j < |g.succs[n]| ==> g.succs[n][j] < |g.stmts|)
    && (forall n, p :: 0 <= n < |g.stmts| && 0 <= p < |g.stmts| ==> (p in g.preds[n] <==> n in g.succs[p]))
    && g.preds[g.entry] == []
  }

  datatype SolveError = UnsupportedOperation

  datatype Outcome = Pass | Fail(error: SolveError)

  // ---------------------------------------------------------------------------
  // Specification: accumulating predecessors' OUT facts

  ghost predicate NodesIn(outs: seq<Fact>, ps: seq<nat>)
  {
    forall j :: 0 <= j < |ps| ==> ps[j] < |outs|
  }

  /** `i` after meeting into it the OUT facts of `ps`, first to last. */
  ghost function MeetPreds(outs: seq<Fact>, ps: seq<nat>, i: Fact): Fact
    requires NodesIn(outs, ps)
    decreases |ps|
  {
    if ps == [] then i
    else MeetFacts(outs[ps[|ps| - 1]], MeetPreds(outs, ps[..|ps| - 1], i))
  }

  /** The meet of the OUT facts of `ps`. */
  ghost function JoinOuts(outs: seq<Fact>, ps: seq<nat>): Fact
    requires NodesIn(outs, ps)
  {
    MeetPreds(outs, ps, NewInitialFact())
  }

  lemma {:induction false} MeetPredsUpper(outs: seq<Fact>, ps: seq<nat>, i: Fact)
    requires NodesIn(outs, ps)
    ensures FactLeq(i, MeetPreds(outs, ps, i))
    ensures forall j :: 0 <= j < |ps| ==> FactLeq(outs[ps[j]], MeetPreds(outs, ps, i))
  {
    if ps != [] {
      var init := ps[..|ps| - 1];
      var m := MeetPreds(outs, init, i);
      var r := MeetPreds(outs, ps, i);
      MeetPredsUpper(outs, init, i);
      MeetFactsUpperBound(outs[ps[|ps| - 1]], m);
      FactLeqTransitive(i, m, r);
      forall j | 0 <= j < |ps|
        ensures FactLeq(outs[ps[j]], r)
      {
        if j < |ps| - 1 {
          assert ps[j] == init[j];
          FactLeqTransitive(outs[ps[j]], m, r);
        }
      }
    }
  }

  lemma {:induction false} MeetPredsLeast(outs: seq<Fact>, ps: seq<nat>, i: Fact, bound: Fact)
    requires NodesIn(outs, ps)
    requires FactLeq(i, bound)
    requires forall j :: 0 <= j < |ps| ==> FactLeq(outs[ps[j]], bound)
    ensures FactLeq(MeetPreds(outs, ps, i), bound)
  {
    if ps != [] {
      var init := ps[..|ps| - 1];
      assert forall j :: 0 <= j < |init| ==> init[j] == ps[j];
      MeetPredsLeast(outs, init, i, bound);
      MeetFactsLeast(outs[ps[|ps| - 1]], MeetPreds(outs, init, i), bound);
    }
  }

  lemma {:induction false} MeetPredsKeys(outs: seq<Fact>, ps: seq<nat>, i: Fact, vars: set<Var>)
    requires NodesIn(outs, ps)
    requires i.Keys <= vars
    requires forall n :: 0 <= n < |outs| ==> outs[n].Keys <= vars
    ensures MeetPreds(outs, ps, i).Keys <= vars
  {
    if ps != [] {
      MeetPredsKeys(outs, ps[..|ps| - 1], i, vars);
    }
  }

  lemma {:induction false} MeetPredsGated(outs: seq<Fact>, ps: seq<nat>, i: Fact)
    requires NodesIn(outs, ps)
    requires Gated(i)
    requires forall n :: 0 <= n < |outs| ==> Gated(outs[n])
    ensures Gated(MeetPreds(outs, ps, i))
  {
    if ps != [] {
      MeetPredsGated(outs, ps[..|ps| - 1], i);
    }
  }

  /** The join of the predecessors' OUT facts grows when the OUT facts do. */
  lemma {:induction false} JoinOutsMonotone(outs: seq<Fact>, outs': seq<Fact>, ps: seq<nat>)
    requires |outs| == |outs'| && NodesIn(outs, ps)
    requires forall n :: 0 <= n < |outs| ==> FactLeq(outs[n], outs'[n])
    ensures FactLeq(JoinOuts(outs, ps), JoinOuts(outs', ps))
  {
    var b := JoinOuts(outs', ps);
    MeetPredsUpper(outs', ps, NewInitialFact());
    forall j | 0 <= j < |ps|
      ensures FactLeq(outs[ps[j]], b)
    {
      FactLeqTransitive(outs[ps[j]], outs'[ps[j]], b);
    }
    MeetPredsLeast(outs, ps, NewInitialFact(), b);
  }

  // ---------------------------------------------------------------------------
  // Specification: the loop invariant

  /** `n` is at a fixpoint: its OUT is the transfer of its IN, and its IN has absorbed every predecessor's OUT. */
  ghost predicate Stable(g: CFG, ins: seq<Fact>, outs: seq<Fact>, n: nat)
    requires WellFormed(g) && |ins| == |g.stmts| && |outs| == |g.stmts| && n < |g.stmts|
  {
    && SameFact(outs[n], Transfer(g.stmts[n], ins[n]))
    && FactLeq(JoinOuts(outs, g.preds[n]), ins[n])
  }

  /** `n` has not overshot: its OUT is below the transfer of its IN, and its IN below the join of its predecessors' OUT. */
  ghost predicate Bounded(g: CFG, ins: seq<Fact>, outs: seq<Fact>, n: nat)
    requires WellFormed(g) && |ins| == |g.stmts| && |outs| == |g.stmts| && n < |g.stmts|
  {
    && FactLeq(outs[n], Transfer(g.stmts[n], ins[n]))
    && FactLeq(ins[n], JoinOuts(outs, g.preds[n]))
  }

  ghost function DefinedVars(g: CFG): set<Var>
  {
    set n | 0 <= n < |g.stmts| && g.stmts[n].Definition? :: g.stmts[n].lhs
  }

  ghost predicate SolverInvariant(g: CFG, ins: seq<Fact>, outs: seq<Fact>, workList: seq<nat>, vars: set<Var>)
    requires WellFormed(g) && |ins| == |g.stmts| && |outs| == |g.stmts|
  {
    && (forall j :: 0 <= j < |workList| ==> workList[j] < |g.stmts| && workList[j] != g.entry)
    && DefinedVars(g) <= vars
    && (forall n :: 0 <= n < |g.stmts| ==> ins[n].Keys <= vars && outs[n].Keys <= vars)
    && (forall n :: 0 <= n < |g.stmts| ==> Gated(outs[n]) && (n != g.entry ==> Gated(ins[n])))
    && (forall n :: 0 <= n < |g.stmts| && n != g.entry ==> Bounded(g, ins, outs, n))
    && (forall n :: 0 <= n < |g.stmts| && n != g.entry && n !in workList ==> Stable(g, ins, outs, n))
  }

  /**
    What remains to be learnt: one element per node, tracked variable and
    lattice level that the node's OUT fact has not yet reached for it. It
    shrinks whenever an OUT fact grows.
  */
  ghost function Potential(outs: seq<Fact>, vars: set<Var>): set<(int, Var, int)>
  {
    set n, x, k | 0 <= n < |outs| && x in vars && 0 < k <= 2 && Height(Get(outs[n], x)) < k :: (n, x, k)
  }

  lemma {:induction false} PotentialShrinks(outs: seq<Fact>, cn: nat, o: Fact, vars: set<Var>)
    requires cn < |outs|
    requires outs[cn].Keys <= vars && o.Keys <= vars
    requires FactLeq(outs[cn], o) && !SameFact(outs[cn], o)
    ensures Potential(outs[cn := o], vars) < Potential(outs, vars)
  {
    var outs' := outs[cn := o];
    forall t | t in Potential(outs', vars)
      ensures t in Potential(outs, vars)
    {
      var (n, x, k) := t;
      if n == cn {
        LeqHeight(Get(outs[cn], x), Get(o, x));
      }
    }
    var x :| Get(outs[cn], x) != Get(o, x);
    LeqHeight(Get(outs[cn], x), Get(o, x));
    var h := Height(Get(o, x));
    assert (cn, x, h) in Potential(outs, vars);
    assert (cn, x, h) !in Potential(outs', vars);
  }

  /**
    One iteration of the loop, on snapshots of the facts: the head `cn` of the
    work list is removed, the predecessors' OUT facts are met into IN[cn], the
    transfer is applied, and when OUT[cn] changed every successor is appended.
  */
  ghost predicate IsStep(
    g: CFG, ins: seq<Fact>, outs: seq<Fact>, workList: seq<nat>,
    changed: bool, ins': seq<Fact>, outs': seq<Fact>, workList': seq<nat>)
    requires WellFormed(g) && |ins| == |g.stmts| && |outs| == |g.stmts|
    requires workList != [] && workList[0] < |g.stmts|
  {
    var cn := workList[0];
    && ins' == ins[cn := MeetPreds(outs, g.preds[cn], ins[cn])]
    && (changed <==> !SameFact(Transfer(g.stmts[cn], ins'[cn]), outs[cn]))
    && outs' == outs[cn := if changed then Transfer(g.stmts[cn], ins'[cn]) else outs[cn]]
    && workList' == workList[1..] + (if changed then g.succs[cn] else [])
  }

  /** In one step IN[cn] and every OUT fact only grow, and no fact gains an untracked variable. */
  lemma {:induction false} StepGrows(
    g: CFG, ins: seq<Fact>, outs: seq<Fact>, workList: seq<nat>, vars: set<Var>,
    changed: bool, ins': seq<Fact>, outs': seq<Fact>, workList': seq<nat>)
    requires WellFormed(g) && |ins| == |g.stmts| && |outs| == |g.stmts|
    requires SolverInvariant(g, ins, outs, workList, vars)
    requires workList != [] && IsStep(g, ins, outs, workList, changed, ins', outs', workList')
    ensures var cn := workList[0];
      && FactLeq(ins[cn], ins'[cn])
      && FactLeq(ins'[cn], JoinOuts(outs, g.preds[cn]))
      && (forall j :: 0 <= j < |g.preds[cn]| ==> FactLeq(outs[g.preds[cn][j]], ins'[cn]))
      && FactLeq(outs'[cn], Transfer(g.stmts[cn], ins'[cn]))
      && (changed ==> FactLeq(outs[cn], outs'[cn]) && !SameFact(outs[cn], outs'[cn]))
    ensures !changed ==> outs' == outs
    ensures forall n :: 0 <= n < |g.stmts| ==> FactLeq(outs[n], outs'[n])
    ensures forall n :: 0 <= n < |g.stmts| ==> ins'[n].Keys <= vars && outs'[n].Keys <= vars
    ensures forall n :: 0 <= n < |g.stmts| ==> Gated(outs'[n]) && (n != g.entry ==> Gated(ins'[n]))
  {
    var cn := workList[0];
    var ps := g.preds[cn];
    var newIn := ins'[cn];
    var newOut := Transfer(g.stmts[cn], newIn);
    assert Bounded(g, ins, outs, cn);
    MeetPredsUpper(outs, ps, ins[cn]);
    MeetPredsUpper(outs, ps, NewInitialFact());
    MeetPredsLeast(outs, ps, ins[cn], JoinOuts(outs, ps));
    MeetPredsKeys(outs, ps, ins[cn], vars);
    MeetPredsGated(outs, ps, ins[cn]);
    TransferMonotone(g.stmts[cn], ins[cn], newIn);
    FactLeqTransitive(outs[cn], Transfer(g.stmts[cn], ins[cn]), newOut);
    assert !changed ==> outs' == outs;
    assert g.stmts[cn].Definition? ==> g.stmts[cn].lhs in DefinedVars(g);
  }

  /** After one step the work list still holds only non-entry nodes. */
  lemma {:induction false} StepWorkList(
    g: CFG, ins: seq<Fact>, outs: seq<Fact>, workList: seq<nat>, vars: set<Var>,
    changed: bool, ins': seq<Fact>, outs': seq<Fact>, workList': seq<nat>)
    requires WellFormed(g) && |ins| == |g.stmts| && |outs| == |g.stmts|
    requires SolverInvariant(g, ins, outs, workList, vars)
    requires workList != [] && IsStep(g, ins, outs, workList, changed, ins', outs', workList')
    ensures forall j :: 0 <= j < |workList'| ==> workList'[j] < |g.stmts| && workList'[j] != g.entry
  {
    var cn := workList[0];
    forall j | 0 <= j < |workList'|
      ensures workList'[j] < |g.stmts| && workList'[j] != g.entry
    {
      if j >= |workList| - 1 {
        var s := g.succs[cn][j - (|workList| - 1)];
        assert s in g.succs[cn];
      }
    }
  }

  /** After one step every non-entry node is still bounded. */
  lemma {:induction false} StepBounded(
    g: CFG, ins: seq<Fact>, outs: seq<Fact>, workList: seq<nat>, vars: set<Var>,
    changed: bool, ins': seq<Fact>, outs': seq<Fact>, workList': seq<nat>)
    requires WellFormed(g) && |ins| == |g.stmts| && |outs| == |g.stmts|
    requires SolverInvariant(g, ins, outs, workList, vars)
    requires workList != [] && IsStep(g, ins, outs, workList, changed, ins', outs', workList')
    ensures forall n :: 0 <= n < |g.stmts| && n != g.entry ==> Bounded(g, ins', outs', n)
  {
    StepGrows(g, ins, outs, workList, vars, changed, ins', outs', workList');
    forall n | 0 <= n < |g.stmts| && n != g.entry
      ensures Bounded(g, ins', outs', n)
    {
      JoinOutsMonotone(outs, outs', g.preds[n]);
      assert Bounded(g, ins, outs, n);
      FactLeqTransitive(ins'[n], JoinOuts(outs, g.preds[n]), JoinOuts(outs', g.preds[n]));
    }
  }

  /** After one step every non-entry node off the work list is stable. */
  lemma {:induction false} StepStable(
    g: CFG, ins: seq<Fact>, outs: seq<Fact>, workList: seq<nat>, vars: set<Var>,
    changed: bool, ins': seq<Fact>, outs': seq<Fact>, workList': seq<nat>)
    requires WellFormed(g) && |ins| == |g.stmts| && |outs| == |g.stmts|
    requires SolverInvariant(g, ins, outs, workList, vars)
    requires workList != [] && IsStep(g, ins, outs, workList, changed, ins', outs', workList')
    ensures forall n :: 0 <= n < |g.stmts| && n != g.entry && n !in workList' ==> Stable(g, ins', outs', n)
  {
    var cn := workList[0];
    StepGrows(g, ins, outs, workList, vars, changed, ins', outs', workList');
    forall n | 0 <= n < |g.stmts| && n != g.entry && n !in workList'
      ensures Stable(g, ins', outs', n)
    {
      var pn := g.preds[n];
      // No predecessor of `n` changed its OUT fact, or `n` would be back on the list.
      assert changed ==> cn !in pn;
      forall j | 0 <= j < |pn|
        ensures outs'[pn[j]] == outs[pn[j]]
      {
        if changed {
          assert pn[j] in pn;
        }
      }
      if n == cn {
        MeetPredsLeast(outs', pn, NewInitialFact(), ins'[cn]);
      } else {
        assert n !in workList;
        assert Stable(g, ins, outs, n);
        MeetPredsUpper(outs, pn, NewInitialFact());
        forall j | 0 <= j < |pn|
          ensures FactLeq(outs'[pn[j]], ins'[n])
        {
          FactLeqTransitive(outs[pn[j]], JoinOuts(outs, pn), ins[n]);
        }
        MeetPredsLeast(outs', pn, NewInitialFact(), ins'[n]);
      }
    }
  }

  // ---------------------------------------------------------------------------
  // Specification: the least solution

  /**
    Facts `sIns`, `sOuts` solve the dataflow inequalities from the entry fact
    `entryOut`: OUT at the entry holds at least `entryOut`, and every other node
    holds at least the meet of its predecessors' OUT in IN and at least the
    transfer of IN in OUT. Every solution of the equations is one of these.
  */
  ghost predicate IsSolution(g: CFG, sIns: seq<Fact>, sOuts: seq<Fact>, entryOut: Fact)
    requires WellFormed(g)
  {
    && |sIns| == |g.stmts| && |sOuts| == |g.stmts|
    && FactLeq(entryOut, sOuts[g.entry])
    && forall n :: 0 <= n < |g.stmts| && n != g.entry ==>
         FactLeq(JoinOuts(sOuts, g.preds[n]), sIns[n]) && FactLeq(Transfer(g.stmts[n], sIns[n]), sOuts[n])
  }

  /** Every OUT fact, and every non-entry IN fact, is below the corresponding fact of `sIns`, `sOuts`. */
  ghost predicate Below(g: CFG, ins: seq<Fact>, outs: seq<Fact>, sIns: seq<Fact>, sOuts: seq<Fact>)
    requires WellFormed(g) && |ins| == |g.stmts| && |outs| == |g.stmts|
    requires |sIns| == |g.stmts| && |sOuts| == |g.stmts|
  {
    forall n :: 0 <= n < |g.stmts| ==> FactLeq(outs[n], sOuts[n]) && (n != g.entry ==> FactLeq(ins[n], sIns[n]))
  }

  /** `ins`, `outs` are below every solution from `entryOut`. */
  ghost predicate BelowEverySolution(g: CFG, ins: seq<Fact>, outs: seq<Fact>, entryOut: Fact)
    requires WellFormed(g) && |ins| == |g.stmts| && |outs| == |g.stmts|
  {
    forall sIns, sOuts :: IsSolution(g, sIns, sOuts, entryOut) ==> Below(g, ins, outs, sIns, sOuts)
  }

  /** One iteration never climbs above a solution: the solver computes the least one. */
  lemma {:induction false} StepBelow(
    g: CFG, ins: seq<Fact>, outs: seq<Fact>, workList: seq<nat>, vars: set<Var>,
    changed: bool, ins': seq<Fact>, outs': seq<Fact>, workList': seq<nat>,
    sIns: seq<Fact>, sOuts: seq<Fact>, entryOut: Fact)
    requires WellFormed(g) && |ins| == |g.stmts| && |outs| == |g.stmts|
    requires SolverInvariant(g, ins, outs, workList, vars)
    requires workList != [] && IsStep(g, ins, outs, workList, changed, ins', outs', workList')
    requires IsSolution(g, sIns, sOuts, entryOut) && Below(g, ins, outs, sIns, sOuts)
    ensures Below(g, ins', outs', sIns, sOuts)
  {
    var cn := workList[0];
    var ps := g.preds[cn];
    assert cn != g.entry && FactLeq(ins[cn], sIns[cn]);
    MeetPredsUpper(sOuts, ps, NewInitialFact());
    forall j | 0 <= j < |ps|
      ensures FactLeq(outs[ps[j]], sIns[cn])
    {
      FactLeqTransitive(outs[ps[j]], sOuts[ps[j]], JoinOuts(sOuts, ps));
      FactLeqTransitive(outs[ps[j]], JoinOuts(sOuts, ps), sIns[cn]);
    }
    MeetPredsLeast(outs, ps, ins[cn], sIns[cn]);
    TransferMonotone(g.stmts[cn], ins'[cn], sIns[cn]);
    FactLeqTransitive(Transfer(g.stmts[cn], ins'[cn]), Transfer(g.stmts[cn], sIns[cn]), sOuts[cn]);
  }

  /** One iteration keeps the invariant, and either an OUT fact grew or the work list got shorter. */
  lemma {:induction false} StepPreserves(
    g: CFG, ins: seq<Fact>, outs: seq<Fact>, workList: seq<nat>, vars: set<Var>,
    changed: bool, ins': seq<Fact>, outs': seq<Fact>, workList': seq<nat>, entryOut: Fact)
    requires WellFormed(g) && |ins| == |g.stmts| && |outs| == |g.stmts|
    requires SolverInvariant(g, ins, outs, workList, vars)
    requires BelowEverySolution(g, ins, outs, entryOut)
    requires workList != [] && IsStep(g, ins, outs, workList, changed, ins', outs', workList')
    ensures SolverInvariant(g, ins', outs', workList', vars)
    ensures BelowEverySolution(g, ins', outs', entryOut)
    ensures changed ==> Potential(outs', vars) < Potential(outs, vars)
    ensures !changed ==> outs' == outs && |workList'| < |workList|
  {
    StepGrows(g, ins, outs, workList, vars, changed, ins', outs', workList');
    StepWorkList(g, ins, outs, workList, vars, changed, ins', outs', workList');
    StepBounded(g, ins, outs, workList, vars, changed, ins', outs', workList');
    StepStable(g, ins, outs, workList, vars, changed, ins', outs', workList');
    forall sIns, sOuts | IsSolution(g, sIns, sOuts, entryOut)
      ensures Below(g, ins', outs', sIns, sOuts)
    {
      StepBelow(g, ins, outs, workList, vars, changed, ins', outs', workList', sIns, sOuts, entryOut);
    }
    if changed {
      var cn := workList[0];
      assert outs' == outs[cn := outs'[cn]];
      PotentialShrinks(outs, cn, outs'[cn], vars);
    }
  }

  /** Two least solutions are the same facts: the result does not depend on how it was reached. */
  lemma {:induction false} LeastSolutionUnique(
    g: CFG, ins1: seq<Fact>, outs1: seq<Fact>, ins2: seq<Fact>, outs2: seq<Fact>, entryOut: Fact)
    requires WellFormed(g)
    requires IsSolution(g, ins1, outs1, entryOut) && IsSolution(g, ins2, outs2, entryOut)
    requires Below(g, ins1, outs1, ins2, outs2) && Below(g, ins2, outs2, ins1, outs1)
    ensures forall n :: 0 <= n < |g.stmts| ==> SameFact(outs1[n], outs2[n])
    ensures forall n :: 0 <= n < |g.stmts| && n != g.entry ==> SameFact(ins1[n], ins2[n])
  {
    forall n | 0 <= n < |g.stmts|
      ensures SameFact(outs1[n], outs2[n])
      ensures n != g.entry ==> SameFact(ins1[n], ins2[n])
    {
      FactLeqAntisymmetric(outs1[n], outs2[n]);
      if n != g.entry {
        FactLeqAntisymmetric(ins1[n], ins2[n]);
      }
    }
  }

  // ---------------------------------------------------------------------------
  // The solver

  /** The initial work list: every node except the entry, in node order. */
  method InitialWorkList(g: CFG) returns (workList: seq<nat>)
    ensures forall n: nat :: n in workList <==> n < |g.stmts| && n != g.entry
    ensures forall i, j :: 0 <= i < j < |workList| ==> workList[i] < workList[j]
  {
    workList := [];
    for n := 0 to |g.stmts|
      invariant forall m: nat :: m in workList <==> m < n && m != g.entry
      invariant forall i, j :: 0 <= i < j < |workList| ==> workList[i] < workList[j]
      invariant forall i :: 0 <= i < |workList| ==> workList[i] < n
    {
      if n != g.entry {
        workList := workList + [n];
      }
    }
  }

  /** Meets the OUT fact of every predecessor of `cn`, first to last, into IN[cn]. */
  method MeetPredecessors(g: CFG, cn: nat, inFacts: array<Fact>, outFacts: array<Fact>)
    requires WellFormed(g) && cn < |g.stmts|
    requires inFacts != outFacts
    requires inFacts.Length == |g.stmts| && outFacts.Length == |g.stmts|
    modifies inFacts
    ensures inFacts[..] == old(inFacts[..])[cn := MeetPreds(outFacts[..], g.preds[cn], old(inFacts[cn]))]
  {
    var ps := g.preds[cn];
    ghost var ins, outs := inFacts[..], outFacts[..];
    for k := 0 to |ps|
      invariant inFacts[..] == ins[cn := MeetPreds(outs, ps[..k], ins[cn])]
    {
      assert ps[..k + 1][..k] == ps[..k];
      inFacts[cn] := MeetInto(outFacts[ps[k]], inFacts[cn]);
    }
    assert ps[..|ps|] == ps;
  }

  /**
    The body of one iteration for node `cn`: meet the predecessors' OUT facts
    into IN[cn], then apply the transfer. Only IN[cn] and OUT[cn] change, and
    OUT[cn] is replaced exactly when the transfer reports a change.
  */
  method ProcessNode(g: CFG, cn: nat, inFacts: array<Fact>, outFacts: array<Fact>) returns (changed: bool)
    requires WellFormed(g) && cn < |g.stmts|
    requires inFacts != outFacts
    requires inFacts.Length == |g.stmts| && outFacts.Length == |g.stmts|
    modifies inFacts, outFacts
    ensures inFacts[..] == old(inFacts[..])[cn := MeetPreds(old(outFacts[..]), g.preds[cn], old(inFacts[cn]))]
    ensures changed <==> !SameFact(Transfer(g.stmts[cn], inFacts[cn]), old(outFacts[cn]))
    ensures outFacts[..] == old(outFacts[..])[cn := if changed then Transfer(g.stmts[cn], inFacts[cn]) else old(outFacts[cn])]
  {
    MeetPredecessors(g, cn, inFacts, outFacts);
    var newOut;
    changed, newOut := TransferNode(g.stmts[cn], inFacts[cn], outFacts[cn]);
    outFacts[cn] := newOut;
  }

  /** The seeded state: every non-entry node is queued, and the initial facts are below every solution. */
  lemma {:induction false} InitialState(g: CFG, ins: seq<Fact>, outs: seq<Fact>, workList: seq<nat>, vars: set<Var>)
    requires WellFormed(g) && |ins| == |g.stmts| && |outs| == |g.stmts|
    requires IsBoundaryFact(outs[g.entry], g.params)
    requires forall n :: 0 <= n < |g.stmts| && n != g.entry ==> ins[n] == NewInitialFact() && outs[n] == NewInitialFact()
    requires forall n: nat :: n in workList <==> n < |g.stmts| && n != g.entry
    requires vars == ins[g.entry].Keys + outs[g.entry].Keys + DefinedVars(g)
    ensures SolverInvariant(g, ins, outs, workList, vars)
    ensures BelowEverySolution(g, ins, outs, outs[g.entry])
  {
    assert forall j :: 0 <= j < |workList| ==> workList[j] in workList;
  }

  /**
    The loop of forward solving: until the work list is empty, take its head,
    process that node, and append the node's successors when its OUT changed.
  */
  method Iterate(g: CFG, inFacts: array<Fact>, outFacts: array<Fact>, workList0: seq<nat>, ghost vars: set<Var>)
    requires WellFormed(g)
    requires inFacts != outFacts
    requires inFacts.Length == |g.stmts| && outFacts.Length == |g.stmts|
    requires SolverInvariant(g, inFacts[..], outFacts[..], workList0, vars)
    requires BelowEverySolution(g, inFacts[..], outFacts[..], outFacts[g.entry])
    modifies inFacts, outFacts
    ensures inFacts[g.entry] == old(inFacts[g.entry]) && outFacts[g.entry] == old(outFacts[g.entry])
    ensures SolverInvariant(g, inFacts[..], outFacts[..], [], vars)
    ensures BelowEverySolution(g, inFacts[..], outFacts[..], old(outFacts[g.entry]))
  {
    var workList := workList0;
    ghost var entryIn, entryOut := inFacts[g.entry], outFacts[g.entry];
    while workList != []
      invariant SolverInvariant(g, inFacts[..], outFacts[..], workList, vars)
      invariant inFacts[g.entry] == entryIn && outFacts[g.entry] == entryOut
      invariant BelowEverySolution(g, inFacts[..], outFacts[..], entryOut)
      decreases Potential(outFacts[..], vars), |workList|
    {
      ghost var ins, outs, list := inFacts[..], outFacts[..], workList;
      var cn := workList[0];
      workList := workList[1..];

      var changed := ProcessNode(g, cn, inFacts, outFacts);
      if changed {
        workList := workList + g.succs[cn];
      }
      StepPreserves(g, ins, outs, list, vars, changed, inFacts[..], outFacts[..], workList, entryOut);
    }
  }

  /**
    Forward solving. The caller has installed the boundary fact as the entry's
    OUT and the initial (empty) fact as IN and OUT of every other node. At exit
    every non-entry node satisfies the dataflow equations, its facts mention
    only `int`-holding variables, and the facts are the least solution from the
    entry's OUT: below every other solution. The entry's facts are untouched.
  */
  method DoSolveForward(g: CFG, inFacts: array<Fact>, outFacts: array<Fact>)
    requires WellFormed(g)
    requires inFacts != outFacts
    requires inFacts.Length == |g.stmts| && outFacts.Length == |g.stmts|
    requires IsBoundaryFact(outFacts[g.entry], g.params)
    requires forall n :: 0 <= n < |g.stmts| && n != g.entry ==>
      inFacts[n] == NewInitialFact() && outFacts[n] == NewInitialFact()
    modifies inFacts, outFacts
    ensures inFacts[g.entry] == old(inFacts[g.entry]) && outFacts[g.entry] == old(outFacts[g.entry])
    ensures forall n :: 0 <= n < |g.stmts| && n != g.entry ==>
      SameFact(outFacts[n], Transfer(g.stmts[n], inFacts[n]))
    ensures forall n :: 0 <= n < |g.stmts| && n != g.entry ==>
      SameFact(inFacts[n], JoinOuts(outFacts[..], g.preds[n]))
    ensures forall n, j :: 0 <= n < |g.stmts| && n != g.entry && 0 <= j < |g.preds[n]| ==>
      SameFact(MeetFacts(outFacts[g.preds[n][j]], inFacts[n]), inFacts[n])
    ensures forall n :: 0 <= n < |g.stmts| && n != g.entry ==> Gated(inFacts[n]) && Gated(outFacts[n])
    ensures IsSolution(g, inFacts[..], outFacts[..], old(outFacts[g.entry]))
    ensures BelowEverySolution(g, inFacts[..], outFacts[..], old(outFacts[g.entry]))
  {
    var workList := InitialWorkList(g);
    ghost var vars := inFacts[g.entry].Keys + outFacts[g.entry].Keys + DefinedVars(g);
    InitialState(g, inFacts[..], outFacts[..], workList, vars);
    Iterate(g, inFacts, outFacts, workList, vars);
    FixpointAtExit(g, inFacts[..], outFacts[..], vars);
    assert forall n :: 0 <= n < |g.stmts| ==> inFacts[..][n] == inFacts[n] && outFacts[..][n] == outFacts[n];
  }

  lemma {:induction false} FixpointAtExit(g: CFG, ins: seq<Fact>, outs: seq<Fact>, vars: set<Var>)
    requires WellFormed(g) && |ins| == |g.stmts| && |outs| == |g.stmts|
    requires SolverInvariant(g, ins, outs, [], vars)
    ensures IsSolution(g, ins, outs, outs[g.entry])
    ensures forall n :: 0 <= n < |g.stmts| && n != g.entry ==> SameFact(outs[n], Transfer(g.stmts[n], ins[n]))
    ensures forall n :: 0 <= n < |g.stmts| && n != g.entry ==> SameFact(ins[n], JoinOuts(outs, g.preds[n]))
    ensures forall n, j :: 0 <= n < |g.stmts| && n != g.entry && 0 <= j < |g.preds[n]| ==>
      SameFact(MeetFacts(outs[g.preds[n][j]], ins[n]), ins[n])
  {
    forall n | 0 <= n < |g.stmts| && n != g.entry
      ensures SameFact(outs[n], Transfer(g.stmts[n], ins[n]))
      ensures SameFact(ins[n], JoinOuts(outs, g.preds[n]))
      ensures forall j :: 0 <= j < |g.preds[n]| ==> SameFact(MeetFacts(outs[g.preds[n][j]], ins[n]), ins[n])
    {
      assert Bounded(g, ins, outs, n) && Stable(g, ins, outs, n);
      FactLeqAntisymmetric(ins[n], JoinOuts(outs, g.preds[n]));
      MeetPredsUpper(outs, g.preds[n], NewInitialFact());
      forall j | 0 <= j < |g.preds[n]|
        ensures SameFact(MeetFacts(outs[g.preds[n][j]], ins[n]), ins[n])
      {
        FactLeqTransitive(outs[g.preds[n][j]], JoinOuts(outs, g.preds[n]), ins[n]);
        MeetFactsAbsorbs(outs[g.preds[n][j]], ins[n]);
      }
    }
  }

  /** Backward solving is not provided: it always fails and computes nothing. */
  method DoSolveBackward(g: CFG, inFacts: array<Fact>, outFacts: array<Fact>) returns (r: Outcome)
    ensures r == Fail(UnsupportedOperation)
  {
    r := Fail(UnsupportedOperation);
  }
}
