/**
  The flat constant-propagation lattice: a variable is undefined (nothing known
  yet), a known `int` constant, or not a constant (NAC). Information only grows
  along Undef <= Const(c) <= NAC, and two different constants are incomparable.

  The operation the analysis calls `meetValue` combines the values flowing in
  from two control-flow paths. With the order drawn as above (Undef at the
  bottom) it is the least upper bound; textbooks that draw NAC at the bottom
  call the same operation the meet.
*/
module Lattice {
  import opened JavaInt

  datatype Value = Undef | Const(c: int32) | NAC

  /** The information order: `a` is at most as definite a conclusion as `b`. */
  predicate Leq(a: Value, b: Value)
  {
    a == Undef || a == b || b == NAC
  }

  /** Undef sits at height 0, constants at 1, NAC at 2. */
  function Height(v: Value): (h: nat)
    ensures h <= 2
  {
    match v
    case Undef => 0
    case Const(_) => 1
    case NAC => 2
  }

  /** The lattice has height 2: every strict step up climbs a level. */
  lemma LeqHeight(a: Value, b: Value)
    requires Leq(a, b)
    ensures Height(a) <= Height(b)
    ensures a != b ==> Height(a) < Height(b)
  {
  }

  lemma LeqIsPartialOrder(a: Value, b: Value, c: Value)
    ensures Leq(a, a)
    ensures Leq(a, b) && Leq(b, a) ==> a == b
    ensures Leq(a, b) && Leq(b, c) ==> Leq(a, c)
  {
  }

  /**
    Combines the values of one variable reaching along two paths: NAC absorbs
    everything, Undef contributes nothing, equal constants agree and different
    constants conflict. The result is the least upper bound of the two.
  */
  function MeetValue(v1: Value, v2: Value): (r: Value)
    ensures Leq(v1, r) && Leq(v2, r)
    ensures forall w :: Leq(v1, w) && Leq(v2, w) ==> Leq(r, w)
  {
    if v1.NAC? || v2.NAC? then NAC
    else if v1.Undef? || v2.Undef? then (if v1.Undef? then v2 else v1)
    else if v1.c == v2.c then Const(v1.c)
    else NAC
  }

  /** NAC is absorbing. */
  lemma MeetNAC(v: Value)
    ensures MeetValue(v, NAC) == NAC && MeetValue(NAC, v) == NAC
  {
  }

  /** Undef is the identity. */
  lemma MeetUndef(v: Value)
    ensures MeetValue(v, Undef) == v && MeetValue(Undef, v) == v
  {
  }

  /** Two constants meet to that constant when equal and to NAC otherwise. */
  lemma MeetConstants(i: int32, j: int32)
    ensures MeetValue(Const(i), Const(j)) == if i == j then Const(i) else NAC
  {
  }

  lemma MeetCommutative(a: Value, b: Value)
    ensures MeetValue(a, b) == MeetValue(b, a)
  {
  }

  lemma MeetIdempotent(a: Value)
    ensures MeetValue(a, a) == a
  {
  }

  lemma MeetAssociative(a: Value, b: Value, c: Value)
    ensures MeetValue(MeetValue(a, b), c) == MeetValue(a, MeetValue(b, c))
  {
  }

  /** Meeting `b` into `a` leaves `a` unchanged exactly when `b` is below `a`. */
  lemma MeetAbsorbs(a: Value, b: Value)
    ensures MeetValue(a, b) == a <==> Leq(b, a)
  {
  }

  /** The meet is monotone in both arguments. */
  lemma MeetMonotone(a: Value, b: Value, a': Value, b': Value)
    requires Leq(a, a') && Leq(b, b')
    ensures Leq(MeetValue(a, b), MeetValue(a', b'))
  {
  }
}
