/** The extended Euclidean inverse of the wallet module. */
module Euclid {
  import opened Wrappers
  import opened ModArith

  /** Greatest common divisor by Euclid's recursion. GcdIsGreatest says what it means. */
  function Gcd(a: nat, b: nat): nat
    decreases a
  {
    if a == 0 then b else Gcd(b % a, a)
  }

  function Abs(x: int): nat {
    if x < 0 then -x else x
  }

  function Pow2(n: nat): nat {
    if n == 0 then 1 else 2 * Pow2(n - 1)
  }

  ghost predicate Divides(d: int, a: int)
    requires d > 0
  {
    a % d == 0
  }

  lemma DividesCombination(d: int, a: int, b: int, j: int, k: int)
    requires d > 0 && Divides(d, a) && Divides(d, b)
    ensures Divides(d, a * j + b * k)
  {
    CongMul(a, 0, j, j, d);
    CongMul(b, 0, k, k, d);
    CongAdd(a * j, 0 * j, b * k, 0 * k, d);
  }

  lemma DivisorsOfStep(d: int, a: nat, b: nat)
    requires d > 0 && a > 0 && Divides(d, a)
    ensures Divides(d, b % a) <==> Divides(d, b)
  {
    var q, r := b / a, b % a;
    var p := a * q;
    assert b == p + r;
    CongMul(a, 0, q, q, d);
    assert Cong(p, 0, d) by { assert 0 * q == 0; }
    if Divides(d, r) {
      CongAdd(p, 0, r, 0, d);
    }
    if Divides(d, b) {
      CongAdd(b, 0, p, 0, d);
    }
  }

  /** Gcd is a common divisor, and every common divisor divides it. */
  lemma {:induction false} GcdIsGreatest(a: nat, b: nat)
    requires b > 0
    ensures Gcd(a, b) > 0
    ensures Divides(Gcd(a, b), a) && Divides(Gcd(a, b), b)
    ensures forall d | d > 0 && Divides(d, a) && Divides(d, b) :: Divides(d, Gcd(a, b))
    decreases a
  {
    if a == 0 {
      MultipleIsZero(b, 1, b);
      MultipleIsZero(0, 0, b);
    } else {
      GcdIsGreatest(b % a, a);
      DivisorsOfStep(Gcd(a, b), a, b);
      forall d | d > 0 && Divides(d, a) && Divides(d, b)
        ensures Divides(d, Gcd(a, b))
      {
        DivisorsOfStep(d, a, b);
      }
    }
  }

  /** A value has an inverse modulo m only if it is coprime to m. */
  lemma InvertibleIsCoprime(value: int, y: int, m: int)
    requires m > 0 && (value * y) % m == 1 % m
    ensures Gcd(value % m, m) == 1
  {
    var a := value % m;
    var g := Gcd(a, m);
    GcdIsGreatest(a, m);
    CongResidue(value, m);
    CongMul(a, value, y, y, m);
    var k := CongWitness(a * y, 1, m);
    DividesCombination(g, a, m, y, -k);
    assert m * -k == -(m * k);
    if g > 1 {
      SmallResidue(1, g);
    }
  }

  ghost predicate IsInverse(value: int, m: int, y: int)
    requires m > 0
  {
    0 <= y < m && (value * y) % m == 1 % m
  }

  lemma InverseUnique(value: int, m: int, y: int, z: int)
    requires m > 0 && IsInverse(value, m, y) && IsInverse(value, m, z)
    ensures y == z
  {
    var vy, vz := value * y, value * z;
    CongMul(vy, 1, z, z, m);
    CongMul(vz, 1, y, y, m);
    assert vy * z == vz * y by { SwapFactors(value, y, z); }
    SmallResidue(y, m);
    SmallResidue(z, m);
  }

  lemma SwapFactors(a: int, b: int, c: int)
    ensures (a * b) * c == (a * c) * b
  {
  }

  /** The inverse of a value modulo m, when there is one. */
  ghost function Inverse(value: int, m: int): Option<int>
    requires m > 0
  {
    if exists y :: IsInverse(value, m, y) then
      var y :| IsInverse(value, m, y); Some(y)
    else None
  }

  lemma InverseIs(value: int, m: int, y: int)
    requires m > 0 && IsInverse(value, m, y)
    ensures Inverse(value, m) == Some(y)
  {
    InverseUnique(value, m, y, Inverse(value, m).value);
  }

  ghost predicate Bezout(a0: nat, m: nat, a: int, b: int, x: int, y: int, u: int, v: int) {
    b == x * a0 + y * m && a == u * a0 + v * m
  }

  /** One division step keeps the Bezout relation of both remainders. */
  lemma BezoutKeeps(a0: nat, m: nat, a: int, b: int, x: int, y: int, u: int, v: int, q: int)
    requires Bezout(a0, m, a, b, x, y, u, v)
    ensures Bezout(a0, m, b - a * q, a, u, v, x - u * q, y - v * q)
  {
  }

  /** One division step halves the product of the two remainders. */
  lemma ProductHalves(a: nat, b: nat)
    requires 0 < a < b
    ensures 2 * ((b % a) * a) <= a * b
  {
    var q, r := b / a, b % a;
    QuotientPositive(a, b);
    MulMonotone(a, 1, q);
    MulMonotone(a, 2 * r, b);
    assert a * (2 * r) == 2 * (r * a);
  }

  /** The coefficients of value alternate in sign, never shrink, and fill the modulus exactly. */
  ghost predicate Sizes(m: nat, a: nat, b: nat, x: int, u: int) {
    && ((u >= 0 && x <= 0) || (u <= 0 && x >= 0))
    && Abs(x) <= Abs(u)
    && b * Abs(u) + a * Abs(x) == m
  }

  lemma SizesKeep(m: nat, a: nat, b: nat, x: int, u: int, q: nat, r: nat)
    requires Sizes(m, a, b, x, u) && q > 0 && b == a * q + r
    ensures Sizes(m, r, a, u, x - u * q)
  {
    NextCoefficient(x, u, q);
    SizesProduct(a, q, r, Abs(x), Abs(u));
  }

  lemma NextCoefficient(x: int, u: int, q: nat)
    requires q > 0 && ((u >= 0 && x <= 0) || (u <= 0 && x >= 0))
    ensures Abs(x - u * q) == Abs(x) + Abs(u) * q
    ensures Abs(u) <= Abs(x - u * q)
    ensures (u >= 0 && x - u * q <= 0) || (u <= 0 && x - u * q >= 0)
  {
    var U := Abs(u);
    MulMonotone(U, 1, q);
    assert u < 0 ==> u * q == -(U * q);
  }

  lemma SizesProduct(a: int, q: int, r: int, X: int, U: int)
    ensures a * (X + U * q) + r * U == (a * q + r) * U + a * X
  {
  }

  lemma QuotientPositive(a: nat, b: nat)
    requires 0 < a < b
    ensures b == a * (b / a) + b % a && b / a > 0
  {
  }

  /** The product of the remainders at least halves with every division. */
  ghost predicate Progress(bound: nat, a: nat, b: nat, divisions: nat) {
    && Pow2(divisions) * (a * b) <= bound
    && (divisions > 0 ==> Pow2(divisions - 1) <= bound)
  }

  lemma HalvedProduct(p: nat, before: nat, after: nat, bound: nat)
    requires p * before <= bound && 2 * after <= before
    ensures (2 * p) * after <= bound
  {
    MulMonotone(p, 2 * after, before);
    DoubledFactor(p, after);
  }

  lemma DoubledFactor(p: int, x: int)
    ensures p * (2 * x) == (2 * p) * x
  {
  }

  lemma PositiveProduct(a: nat, b: nat)
    requires 0 < a && 0 < b
    ensures a * b > 0
  {
    MulMonotone(a, 1, b);
  }

  lemma ProgressKeeps(bound: nat, a: nat, b: nat, divisions: nat, r: nat)
    requires 0 < a < b && Progress(bound, a, b, divisions) && 2 * (r * a) <= a * b
    ensures Progress(bound, r, a, divisions + 1)
  {
    var p, product := Pow2(divisions), a * b;
    HalvedProduct(p, product, r * a, bound);
    PositiveProduct(a, b);
    MulMonotone(p, 1, product);
  }

  /** The invariant of the division loop. */
  ghost predicate DivisionState(a0: nat, m: nat, a: nat, b: nat, x: int, y: int, u: int, v: int, divisions: nat) {
    && a < b <= m && a0 < m
    && Gcd(a, b) == Gcd(a0, m)
    && Bezout(a0, m, a, b, x, y, u, v)
    && Sizes(m, a, b, x, u)
    && Progress(a0 * m, a, b, divisions)
  }

  lemma DivisionKeeps(a0: nat, m: nat, a: nat, b: nat, x: int, y: int, u: int, v: int, divisions: nat)
    requires DivisionState(a0, m, a, b, x, y, u, v, divisions) && a > 0
    ensures DivisionState(a0, m, b % a, a, u, v, x - u * (b / a), y - v * (b / a), divisions + 1)
  {
    var q, r := b / a, b % a;
    QuotientPositive(a, b);
    BezoutKeeps(a0, m, a, b, x, y, u, v, q);
    SizesKeep(m, a, b, x, u, q, r);
    ProductHalves(a, b);
    ProgressKeeps(a0 * m, a, b, divisions, r);
    assert Gcd(a, b) == Gcd(r, a);
  }

  lemma BezoutIsInverse(value: int, m: int, x: int, y: int)
    requires m > 0 && x * (value % m) + y * m == 1
    ensures IsInverse(value, m, x % m)
  {
    var a0 := value % m;
    CongResidue(x, m);
    CongResidue(value, m);
    CongMul(value, a0, x % m, x, m);
    assert a0 * x == 1 + m * -y by { assert y * m == -(m * -y); assert a0 * x == x * a0; }
    CongFromMultiple(a0 * x, 1, -y, m);
  }

  lemma ExitBounds(a0: nat, m: nat, b: nat, u: int)
    requires a0 < m && b > 0 && b * Abs(u) == m
    ensures Abs(u) <= m && a0 * m < m * m
  {
  }

  lemma DivisionEnds(value: int, a0: nat, m: nat, b: nat, x: int, y: int, u: int, v: int, divisions: nat)
    requires m > 0 && a0 == value % m
    requires DivisionState(a0, m, 0, b, x, y, u, v, divisions)
    ensures Gcd(a0, m) == b
    ensures b == 1 ==> IsInverse(value, m, x % m)
    ensures b != 1 ==> Inverse(value, m) == None
    ensures Abs(x) <= m
    ensures divisions > 0 ==> Pow2(divisions - 1) < m * m
  {
    assert b * Abs(u) == m by { assert 0 * Abs(x) == 0; }
    ExitBounds(a0, m, b, u);
    assert Gcd(a0, m) == b;
    if b == 1 {
      BezoutIsInverse(value, m, x, y);
    } else if y' :| IsInverse(value, m, y') {
      InvertibleIsCoprime(value, y', m);
    }
  }

  /**
    * `invertMod(value, modulo)`. It throws exactly when value and modulo share a factor, and
    * otherwise returns the inverse in [0, modulo). The Bezout coefficient it reduces never
    * exceeds the modulus, and the number of divisions is at most 2*log2(modulo) + 1.
    */
  method InvertMod(value: int, modulo: int) returns (r: Outcome<int>, ghost coefficient: int, ghost divisions: nat)
    requires modulo > 0
    ensures r.Returned? <==> Gcd(value % modulo, modulo) == 1
    ensures r.Returned? ==> IsInverse(value, modulo, r.value)
    ensures r == InvertOutcome(value, modulo)
    ensures Abs(coefficient) <= modulo && (r.Returned? ==> r.value == coefficient % modulo)
    ensures divisions > 0 ==> Pow2(divisions - 1) < modulo * modulo
  {
    var a := Reduce(value, modulo);
    ghost var a0 := a;
    var b := modulo;
    var x := 0;
    var y := 1;
    var u := 1;
    var v := 0;
    divisions := 0;
    assert DivisionState(a0, modulo, a, b, x, y, u, v, divisions);

    while a != 0
      invariant a >= 0 && b >= 0
      invariant DivisionState(a0, modulo, a, b, x, y, u, v, divisions)
      decreases a
    {
      DivisionKeeps(a0, modulo, a, b, x, y, u, v, divisions);
      var q := b / a;
      var r' := b % a;
      var m := x - u * q;
      var n := y - v * q;
      b := a;
      a := r';
      x := u;
      y := v;
      u := m;
      v := n;
      divisions := divisions + 1;
    }

    DivisionEnds(value, a0, modulo, b, x, y, u, v, divisions);
    coefficient := x;
    if b != 1 {
      return Threw, coefficient, divisions;
    }
    var inverse := Reduce(x, modulo);
    InverseIs(value, modulo, inverse);
    r := Returned(inverse);
  }

  /** What `invertMod` answers: the inverse, or a throw when there is none. */
  ghost function InvertOutcome(value: int, modulo: int): Outcome<int>
    requires modulo > 0
  {
    match Inverse(value, modulo)
    case Some(y) => Returned(y)
    case None => Threw
  }

  /** `invertMod` succeeds exactly on the values coprime to the modulus. */
  lemma InverseIffCoprime(value: int, m: int)
    requires m > 0
    ensures Inverse(value, m).Some? <==> Gcd(value % m, m) == 1
  {
    if Inverse(value, m).Some? {
      InvertibleIsCoprime(value, Inverse(value, m).value, m);
    }
    if Gcd(value % m, m) == 1 {
      var x, y := BezoutInverse(value % m, m);
      BezoutIsInverse(value, m, x, y);
      InverseIs(value, m, x % m);
    }
  }

  lemma BezoutUnwind(a: int, b: int, q: int, x: int, y: int)
    ensures x * (b - a * q) + y * a == (y - x * q) * a + x * b
  {
  }

  lemma {:induction false} BezoutInverse(a: nat, b: nat) returns (x: int, y: int)
    requires b > 0
    ensures x * a + y * b == Gcd(a, b)
    decreases a
  {
    if a == 0 {
      x, y := 0, 1;
    } else {
      var x', y' := BezoutInverse(b % a, a);
      x, y := y' - x' * (b / a), x';
      BezoutUnwind(a, b, b / a, x', y');
    }
  }
}
