/**
  Java's 32-bit `int` arithmetic, as the Java Language Specification (Java SE 17)
  defines it: wrapping addition, subtraction and multiplication (sections 15.18.2
  and 15.17.1), division truncating toward zero and a remainder that takes the
  sign of the dividend (sections 15.17.2 and 15.17.3), shifts whose distance is
  masked to its low five bits (section 15.19) and two's-complement bitwise
  operators (section 15.22.1).

  Dafny's `int` is unbounded and its `/` and `%` are Euclidean, so every operator
  is written out here on top of `Wrap`, the narrowing of an unbounded integer to
  the `int` with the same low 32 bits.
*/
module JavaInt {

  const TWO_32: int := 0x1_0000_0000
  const MIN_VALUE: int := -0x8000_0000
  const MAX_VALUE: int := 0x7fff_ffff

  /** Java's `int`. */
  newtype int32 = x: int | -0x8000_0000 <= x < 0x8000_0000

  /** The `int` whose two's-complement low 32 bits are those of `x`. */
  function Wrap(x: int): (r: int32)
    ensures MIN_VALUE <= x <= MAX_VALUE ==> r as int == x
    ensures (x - r as int) % TWO_32 == 0
  {
    var m := (x - MIN_VALUE) % TWO_32;
    DivModTwo32(x - MIN_VALUE);
    MultipleMod((x - MIN_VALUE) / TWO_32);
    (m + MIN_VALUE) as int32
  }

  lemma DivModTwo32(a: int)
    ensures a == TWO_32 * (a / TWO_32) + a % TWO_32
    ensures 0 <= a % TWO_32 < TWO_32
  {
  }

  lemma MultipleMod(k: int)
    ensures (TWO_32 * k) % TWO_32 == 0
  {
  }

  /** Euclidean division by 2^32 is determined by its defining equation. */
  lemma DivModUnique(a: int, q: int, r: int)
    requires a == TWO_32 * q + r && 0 <= r < TWO_32
    ensures a % TWO_32 == r && a / TWO_32 == q
  {
  }

  /** Two integers with the same low 32 bits narrow to the same `int`. */
  lemma {:induction false} WrapCongruent(x: int, y: int)
    requires (x - y) % TWO_32 == 0
    ensures Wrap(x) == Wrap(y)
  {
    DivModTwo32(x - y);
    var k := (x - y) / TWO_32;
    DivModTwo32(y - MIN_VALUE);
    DivModUnique(x - MIN_VALUE, (y - MIN_VALUE) / TWO_32 + k, (y - MIN_VALUE) % TWO_32);
  }

  /** Multiplying both sides of a congruence modulo 2^32 keeps it one. */
  lemma {:induction false} CongruentScale(x: int, y: int, c: int)
    requires (x - y) % TWO_32 == 0
    ensures (x * c - y * c) % TWO_32 == 0
  {
    DivModTwo32(x - y);
    var k := (x - y) / TWO_32;
    assert x * c - y * c == (x - y) * c;
    assert (x - y) * c == TWO_32 * (k * c);
    MultipleMod(k * c);
  }

  /** The value of the low 32 bits of `a` read as an unsigned number. */
  function Unsigned(a: int32): (u: int)
    ensures 0 <= u < TWO_32
    ensures a >= 0 ==> u == a as int
    ensures a < 0 ==> u == a as int + TWO_32
  {
    a as int % TWO_32
  }

  // ---------------------------------------------------------------------------
  // Additive and multiplicative operators (sections 15.17 and 15.18.2)

  function Add(a: int32, b: int32): int32 { Wrap(a as int + b as int) }

  function Sub(a: int32, b: int32): int32 { Wrap(a as int - b as int) }

  function Mul(a: int32, b: int32): int32 { Wrap(a as int * b as int) }

  function Abs(x: int): nat { if x < 0 then -x else x }

  /** Euclidean division by a positive divisor, written out. */
  lemma DivModPositive(a: int, p: int)
    requires p >= 1
    ensures a == p * (a / p) + a % p && 0 <= a % p < p
  {
  }

  /** Multiplying by a positive number never moves a value toward zero. */
  lemma MulMonotone(p: int, q: int)
    requires p >= 1
    ensures q >= 0 ==> q <= p * q
    ensures q < 0 ==> p * q <= q - p + 1
  {
    if q < 0 {
      var u, v := p - 1, -q - 1;
      assert u * v >= 0;
      assert p * q == q - p + 1 - u * v;
    }
  }

  lemma DivBoundsLinear(a: int, p: int, q: int, r: int, m: int)
    requires p >= 1 && a == m + r && 0 <= r < p
    requires q >= 0 ==> m >= q
    requires q < 0 ==> m <= q - p + 1
    ensures a >= 0 ==> 0 <= q <= a
    ensures a < 0 ==> a <= q < 0
  {
  }

  /** Floor division by a positive number moves its argument toward zero, never past it. */
  lemma FloorDivBounds(a: int, p: int)
    requires p >= 1
    ensures a >= 0 ==> 0 <= a / p <= a
    ensures a < 0 ==> a <= a / p < 0
  {
    DivModPositive(a, p);
    MulMonotone(p, a / p);
    DivBoundsLinear(a, p, a / p, a % p, p * (a / p));
  }

  lemma MulSigns(d: int, q: int)
    ensures (-d) * (-q) == d * q && (-d) * q == -(d * q) && d * (-q) == -(d * q)
  {
  }

  /** Integer division rounding toward zero, on unbounded integers. */
  function TruncDiv(a: int, b: int): (q: int)
    requires b != 0
    ensures Abs(b * q) <= Abs(a)
    ensures Abs(a - b * q) < Abs(b)
    ensures a - b * q == 0 || (a - b * q < 0 <==> a < 0)
  {
    var n, d := Abs(a), Abs(b);
    DivModPositive(n, d);
    MulMonotone(d, n / d);
    MulSigns(d, n / d);
    if (a < 0) == (b < 0) then n / d else -(n / d)
  }

  /** `a / b` on `int`: rounds toward zero; `MIN_VALUE / -1` overflows to `MIN_VALUE`. */
  function Div(a: int32, b: int32): int32
    requires b != 0
  {
    Wrap(TruncDiv(a as int, b as int))
  }

  /** `a % b` on `int`: `a - (a / b) * b`, which never overflows. */
  function Rem(a: int32, b: int32): int32
    requires b != 0
  {
    (a as int - b as int * TruncDiv(a as int, b as int)) as int32
  }

  /** Section 15.17.3: `(a / b) * b + a % b == a`, even when `a / b` overflows. */
  lemma {:induction false} DivRemIdentity(a: int32, b: int32)
    requires b != 0
    ensures Add(Mul(Div(a, b), b), Rem(a, b)) == a
  {
    var q := TruncDiv(a as int, b as int);
    var r := Rem(a, b) as int;
    var dq := Div(a, b) as int;
    var qb := q * (b as int);
    assert a as int == qb + r;
    CongruentScale(q, dq, b as int);
    assert dq * (b as int) - qb == -(qb - dq * (b as int));
    DivModTwo32(qb - dq * (b as int));
    MultipleMod(-((qb - dq * (b as int)) / TWO_32));
    WrapCongruent(dq * (b as int), qb);
    var m := Mul(Div(a, b), b) as int;
    DivModTwo32(qb - m);
    MultipleMod(-((qb - m) / TWO_32));
    WrapCongruent(m + r, a as int);
  }

  /** The remainder is smaller than the divisor and has the sign of the dividend. */
  lemma RemSign(a: int32, b: int32)
    requires b != 0
    ensures Abs(Rem(a, b) as int) < Abs(b as int)
    ensures Rem(a, b) == 0 || (Rem(a, b) < 0 <==> a < 0)
  {
  }

  // ---------------------------------------------------------------------------
  // Shift operators (section 15.19)

  function Pow2(n: nat): (r: int)
    ensures r >= 1
  {
    if n == 0 then 1 else 2 * Pow2(n - 1)
  }

  /** The shift distance: the low five bits of the right-hand operand. */
  function ShiftDistance(s: int32): (d: nat)
    ensures d < 32
    ensures (s as int - d) % 32 == 0
  {
    s as int % 32
  }

  /** `a << s`: multiplication by 2^distance, narrowed to 32 bits. */
  function Shl(a: int32, s: int32): int32
  {
    Wrap(a as int * Pow2(ShiftDistance(s)))
  }

  /** `a >> s`: floor division by 2^distance (sign extension). */
  function Shr(a: int32, s: int32): int32
  {
    var p := Pow2(ShiftDistance(s));
    FloorDivBounds(a as int, p);
    (a as int / p) as int32
  }

  /** `a >>> s`: the low 32 bits read as unsigned, divided by 2^distance (zero extension). */
  function Ushr(a: int32, s: int32): int32
  {
    Wrap(Unsigned(a) / Pow2(ShiftDistance(s)))
  }

  // ---------------------------------------------------------------------------
  // Bitwise operators (section 15.22.1), bit by bit on the two's-complement pattern

  datatype Logic = AndBit | OrBit | XorBit

  function BitOf(op: Logic, x: nat, y: nat): (b: nat)
    requires x < 2 && y < 2
    ensures b < 2
  {
    match op
    case AndBit => if x == 1 && y == 1 then 1 else 0
    case OrBit => if x == 1 || y == 1 then 1 else 0
    case XorBit => if x != y then 1 else 0
  }

  /** The low `n` bits of `x` and `y` combined bit by bit, read as an unsigned number. */
  function Bitwise(op: Logic, x: nat, y: nat, n: nat): (r: nat)
    ensures r < Pow2(n)
  {
    if n == 0 then 0
    else BitOf(op, x % 2, y % 2) + 2 * Bitwise(op, x / 2, y / 2, n - 1)
  }

  function And(a: int32, b: int32): int32 { Wrap(Bitwise(AndBit, Unsigned(a), Unsigned(b), 32)) }

  function Or(a: int32, b: int32): int32 { Wrap(Bitwise(OrBit, Unsigned(a), Unsigned(b), 32)) }

  function Xor(a: int32, b: int32): int32 { Wrap(Bitwise(XorBit, Unsigned(a), Unsigned(b), 32)) }

  // ---------------------------------------------------------------------------
  // Properties of the operators above

  /** Euclidean division by any positive divisor is determined by its defining equation. */
  lemma {:induction false} ModUnique(a: int, d: int, q: int, r: int)
    requires d >= 1 && a == d * q + r && 0 <= r < d
    ensures a % d == r
  {
    DivModPositive(a, d);
    var e := q - a / d;
    assert d * e == a % d - r by {
      assert d * e == d * q - d * (a / d);
    }
    MulMonotone(d, e);
    MulMonotone(d, e - 1);
  }

  lemma {:induction false} ModDouble(x: nat, p: int)
    requires p >= 1
    ensures x % (2 * p) == x % 2 + 2 * ((x / 2) % p)
  {
    DivModPositive(x / 2, p);
    var t, u := (x / 2) / p, (x / 2) % p;
    assert x == 2 * (x / 2) + x % 2;
    assert x == (2 * p) * t + (2 * u + x % 2) by {
      assert 2 * (p * t) == (2 * p) * t;
    }
    ModUnique(x, 2 * p, t, 2 * u + x % 2);
  }

  /** Masking with 2^k - 1 keeps exactly the low k bits. */
  lemma {:induction false} LowBits(x: nat, k: nat, n: nat)
    requires k <= n
    ensures Bitwise(AndBit, x, Pow2(k) - 1, n) == x % Pow2(k)
  {
    if n == 0 {
    } else if k == 0 {
      LowBits(x / 2, 0, n - 1);
      assert Bitwise(AndBit, x, 0, n) == 2 * Bitwise(AndBit, x / 2, 0, n - 1);
    } else {
      var p := Pow2(k - 1);
      var y := Pow2(k) - 1;
      assert y == 2 * (p - 1) + 1;
      assert y % 2 == 1 && y / 2 == p - 1;
      LowBits(x / 2, k - 1, n - 1);
      assert Bitwise(AndBit, x, y, n) == x % 2 + 2 * ((x / 2) % p);
      ModDouble(x, p);
    }
  }

  lemma {:induction false} Pow2Add(a: nat, b: nat)
    ensures Pow2(a + b) == Pow2(a) * Pow2(b)
  {
    if a > 0 {
      Pow2Add(a - 1, b);
      assert Pow2(a + b) == 2 * Pow2(a - 1 + b);
    }
  }

  lemma Pow2Values()
    ensures Pow2(5) == 32 && Pow2(32) == TWO_32
  {
    assert Pow2(4) == 16;
    Pow2Add(4, 4);
    Pow2Add(8, 8);
    Pow2Add(16, 16);
  }

  /** Section 15.19: the shift distance is `s & 0x1f`. */
  lemma {:induction false} ShiftDistanceIsMask(s: int32)
    ensures ShiftDistance(s) as int == And(s, 0x1f) as int
  {
    Pow2Values();
    LowBits(Unsigned(s), 5, 32);
    var u := Unsigned(s);
    assert u % 32 == s as int % 32 by {
      if s < 0 {
        DivModPositive(s as int, 32);
        ModUnique(u, 32, s as int / 32 + TWO_32 / 32, s as int % 32);
      }
    }
  }

  /** `-1` is all ones: masking with it changes nothing. */
  lemma {:induction false} AndAllOnes(a: int32)
    ensures And(a, -1) == a
  {
    Pow2Values();
    LowBits(Unsigned(a), 32, 32);
    DivModUnique(Unsigned(a), 0, Unsigned(a));
    WrapCongruent(Unsigned(a), a as int);
  }

  lemma {:induction false} XorSelfBits(x: nat, n: nat)
    ensures Bitwise(XorBit, x, x, n) == 0
  {
    if n > 0 {
      XorSelfBits(x / 2, n - 1);
    }
  }

  lemma {:induction false} XorSelf(a: int32)
    ensures Xor(a, a) == 0
  {
    XorSelfBits(Unsigned(a), 32);
  }

  /** Section 15.19: on a non-negative left operand `>>>` and `>>` agree. */
  lemma UshrOfNonNegative(a: int32, s: int32)
    requires a >= 0
    ensures Ushr(a, s) == Shr(a, s)
  {
    FloorDivBounds(a as int, Pow2(ShiftDistance(s)));
  }

  /** Worked values of the corner cases the Java Language Specification calls out. */
  lemma CornerCases()
    ensures Add(MAX_VALUE as int32, 1) == MIN_VALUE as int32
    ensures Div(MIN_VALUE as int32, -1) == MIN_VALUE as int32
    ensures Rem(MIN_VALUE as int32, -1) == 0
    ensures Div(-7, 2) == -3 && Rem(-7, 2) == -1 && Rem(7, -2) == 1
    ensures Shl(1, 31) == MIN_VALUE as int32 && Shl(1, 32) == 1
    ensures Shr(-8, 1) == -4 && Ushr(-1, 28) == 15
  {
    Pow2Values();
  }
}
