/**
  A constant-propagation fact: what is known about each variable at one program
  point. A variable absent from the map is Undef, so the empty map says that
  nothing is known about anything. Two facts are the same fact when every
  variable looks up to the same value, whichever keys they happen to store.
*/
module Facts {
  import opened Lattice
  import opened IR

  type Fact = map<Var, Value>

  /** The value of `x` in `f`; Undef when `f` has no entry for it. */
  function Get(f: Fact, x: Var): Value
  {
    if x in f then f[x] else Undef
  }

  /** `f` with `x` bound to `v`; every other variable keeps its value. */
  function Update(f: Fact, x: Var, v: Value): (r: Fact)
    ensures Get(r, x) == v
    ensures forall y :: y != x ==> Get(r, y) == Get(f, y)
    ensures r.Keys == f.Keys + {x}
  {
    f[x := v]
  }

  /** Equality of facts: agreement on every lookup. */
  ghost predicate SameFact(a: Fact, b: Fact)
  {
    forall x :: Get(a, x) == Get(b, x)
  }

  /** `a` is, variable by variable, at most as definite as `b`. */
  ghost predicate FactLeq(a: Fact, b: Fact)
  {
    forall x :: Leq(Get(a, x), Get(b, x))
  }

  /** The executable equality test: only stored keys need comparing. */
  function FactEquals(a: Fact, b: Fact): (r: bool)
    ensures r <==> SameFact(a, b)
  {
    forall x | x in a.Keys + b.Keys :: Get(a, x) == Get(b, x)
  }

  lemma {:induction false} FactLeqTransitive(a: Fact, b: Fact, c: Fact)
    requires FactLeq(a, b) && FactLeq(b, c)
    ensures FactLeq(a, c)
  {
    forall x
      ensures Leq(Get(a, x), Get(c, x))
    {
      LeqIsPartialOrder(Get(a, x), Get(b, x), Get(c, x));
    }
  }

  /** Facts below each other both ways are the same fact. */
  lemma {:induction false} FactLeqAntisymmetric(a: Fact, b: Fact)
    requires FactLeq(a, b) && FactLeq(b, a)
    ensures SameFact(a, b)
  {
    forall x
      ensures Get(a, x) == Get(b, x)
    {
      LeqIsPartialOrder(Get(a, x), Get(b, x), Get(a, x));
    }
  }
}
