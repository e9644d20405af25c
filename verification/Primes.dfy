/** Prime moduli: inverses, zero products and Fermat's little theorem. */
module Primes {
  import opened Wrappers
  import opened ModArith
  import opened Euclid

  ghost predicate IsPrime(p: int) {
    p >= 2 && forall d :: 2 <= d < p ==> p % d != 0
  }

  /** Below a prime every positive number is coprime to it, so `invertMod` never throws. */
  lemma NonzeroInvertible(a: int, p: int)
    requires IsPrime(p) && a % p != 0
    ensures Inverse(a, p).Some?
  {
    var r := a % p;
    var g := Gcd(r, p);
    GcdIsGreatest(r, p);
    assert p % g == 0 && r % g == 0;
    if g >= p {
      SmallResidue(r, g);
      assert false;
    }
    InverseIffCoprime(a, p);
  }

  lemma InverseOfNonzero(a: int, p: int) returns (y: int)
    requires IsPrime(p) && a % p != 0
    ensures Inverse(a, p) == Some(y) && 0 <= y < p
    ensures Cong(a * y, 1, p)
  {
    NonzeroInvertible(a, p);
    y := Inverse(a, p).value;
    assert IsInverse(a, p, y);
  }

  lemma ZeroProduct(a: int, b: int, p: int)
    requires IsPrime(p)
    ensures (a * b) % p == 0 <==> a % p == 0 || b % p == 0
  {
    SmallResidue(0, p);
    if a % p == 0 {
      CongMul(a, 0, b, b, p);
    }
    if b % p == 0 {
      CongMul(a, a, b, 0, p);
    }
    if (a * b) % p == 0 && a % p != 0 {
      var y := InverseOfNonzero(a, p);
      Cancel(a, b, 0, y, p);
    }
  }

  lemma Cancel(a: int, b: int, c: int, y: int, p: int)
    requires p > 0 && Cong(a * y, 1, p) && Cong(a * b, a * c, p)
    ensures Cong(b, c, p)
  {
    CongMul(a * b, a * c, y, y, p);
    SwapFactors(a, b, y);
    SwapFactors(a, c, y);
    CongMul(a * y, 1, b, b, p);
    CongMul(a * y, 1, c, c, p);
  }

  lemma CancelNonzero(a: int, b: int, c: int, p: int)
    requires IsPrime(p) && a % p != 0 && Cong(a * b, a * c, p)
    ensures Cong(b, c, p)
  {
    var y := InverseOfNonzero(a, p);
    Cancel(a, b, c, y, p);
  }

  // ----- Powers

  function Pow(b: int, e: nat): int {
    if e == 0 then 1 else b * Pow(b, e - 1)
  }

  lemma {:induction false} PowAdd(b: int, j: nat, k: nat)
    ensures Pow(b, j + k) == Pow(b, j) * Pow(b, k)
  {
    if j == 0 {
    } else {
      PowAdd(b, j - 1, k);
      assert b * (Pow(b, j - 1) * Pow(b, k)) == (b * Pow(b, j - 1)) * Pow(b, k);
    }
  }

  lemma {:induction false} PowOfSquare(b: int, e: nat)
    ensures Pow(b * b, e) == Pow(b, 2 * e)
  {
    if e == 0 {
    } else {
      PowOfSquare(b, e - 1);
      assert Pow(b, 2 * e) == b * (b * Pow(b, 2 * e - 2));
      assert (b * b) * Pow(b, 2 * e - 2) == b * (b * Pow(b, 2 * e - 2));
    }
  }

  lemma {:induction false} PowCong(a: int, b: int, e: nat, m: int)
    requires m > 0 && Cong(a, b, m)
    ensures Cong(Pow(a, e), Pow(b, e), m)
  {
    if e == 0 {
    } else {
      PowCong(a, b, e - 1, m);
      CongMul(a, b, Pow(a, e - 1), Pow(b, e - 1), m);
    }
  }

  lemma {:induction false} PowNonzero(a: int, e: nat, p: int)
    requires IsPrime(p) && a % p != 0
    ensures Pow(a, e) % p != 0
  {
    if e == 0 {
      SmallResidue(1, p);
    } else {
      PowNonzero(a, e - 1, p);
      ZeroProduct(a, Pow(a, e - 1), p);
    }
  }

  ghost predicate PowerState(base: int, exponent: nat, m: int, result: int, value: int, power: nat)
    requires m > 0
  {
    Cong(result * Pow(value, power), Pow(base, exponent), m)
  }

  lemma SquareStep(base: int, exponent: nat, m: int, result: int, value: int, power: nat)
    requires m > 0 && power > 0 && PowerState(base, exponent, m, result, value, power)
    ensures PowerState(base, exponent, m,
                       if power % 2 == 1 then (result * value) % m else result, (value * value) % m, power / 2)
  {
    var h := power / 2;
    var sq := (value * value) % m;
    CongResidue(value * value, m);
    PowCong(sq, value * value, h, m);
    PowOfSquare(value, h);
    var w := Pow(value, 2 * h);
    if power % 2 == 1 {
      assert Pow(value, power) == value * w;
      CongResidue(result * value, m);
      CongMul((result * value) % m, result * value, Pow(sq, h), w, m);
      assert (result * value) * w == result * (value * w);
    } else {
      CongMul(result, result, Pow(sq, h), w, m);
    }
  }

  /** `powMod`: the power of the base reduced by the modulus; without a positive exponent, 1. */
  method PowMod(base: int, exponent: int, modulo: int) returns (result: int)
    requires modulo > 0
    ensures exponent <= 0 ==> result == 1
    ensures exponent > 0 ==> result == Pow(base, exponent) % modulo
    ensures modulo >= 2 ==> 0 <= result < modulo
  {
    result := 1;
    var value := Reduce(base, modulo);
    var power := exponent;
    if exponent > 0 {
      CongResidue(base, modulo);
      PowCong(value, base, exponent, modulo);
    }
    while power > 0
      invariant power <= exponent && (exponent <= 0 ==> power == exponent)
      invariant power == exponent ==> result == 1
      invariant exponent > 0 ==> power >= 0 && PowerState(base, exponent, modulo, result, value, power)
      invariant 0 <= result && (power < exponent && result != 1 ==> result < modulo)
      invariant exponent > 0 && power == 0 && modulo == 1 ==> result == 0
      decreases power
    {
      SquareStep(base, exponent, modulo, result, value, power);
      if power % 2 == 1 {
        result := Reduce(result * value, modulo);
      }
      value := Reduce(value * value, modulo);
      power := power / 2;
    }
    if exponent > 0 {
      assert result * Pow(value, 0) == result;
      SmallResidue(result, modulo);
    }
  }

  // ----- Fermat's little theorem

  /** The numbers 1 to p-1. */
  ghost function Units(p: nat): (s: set<nat>)
    ensures forall x: nat :: x in s <==> 1 <= x < p
    ensures p >= 1 ==> |s| == p - 1
  {
    if p <= 1 then {} else Units(p - 1) + {p - 1}
  }

  ghost function Product(s: set<nat>): int {
    if s == {} then 1 else
      var x :| x in s;
      x * Product(s - {x})
  }

  lemma {:induction false} ProductRemove(s: set<nat>, x: nat)
    requires x in s
    ensures Product(s) == x * Product(s - {x})
    decreases s
  {
    var y :| y in s && Product(s) == y * Product(s - {y});
    if x == y {
    } else {
      ProductRemove(s - {y}, x);
      ProductRemove(s - {x}, y);
      assert s - {y} - {x} == s - {x} - {y};
      SwapLeft(x, y, Product(s - {x} - {y}));
    }
  }

  lemma SwapLeft(x: int, y: int, t: int)
    ensures y * (x * t) == x * (y * t)
  {
  }

  ghost function Scaled(a: int, s: set<nat>, p: int): set<nat>
    requires p > 0
  {
    set x | x in s :: (a * x) % p
  }

  lemma ScaledSizeInsert(a: int, rest: set<nat>, x: nat, y: nat, p: int)
    requires IsPrime(p) && a % p != 0 && rest <= Units(p) && x in Units(p) && x !in rest && y == (a * x) % p
    ensures |Scaled(a, rest + {x}, p)| == |Scaled(a, rest, p)| + 1
  {
    ScaledInsert(a, rest, x, p);
    var scaled := Scaled(a, rest, p);
    assert y !in scaled && Scaled(a, rest + {x}, p) == scaled + {y};
  }

  /** Multiplying by a unit maps different residues to different residues. */
  lemma {:induction false} ScaledSize(a: int, s: set<nat>, p: int)
    requires IsPrime(p) && a % p != 0 && s <= Units(p)
    ensures |Scaled(a, s, p)| == |s|
    decreases s
  {
    if s == {} {
      assert Scaled(a, s, p) == {};
    } else {
      var x :| x in s;
      ScaledSize(a, s - {x}, p);
      ScaledSizeInsert(a, s - {x}, x, (a * x) % p, p);
      assert s == (s - {x}) + {x};
    }
  }

  lemma ScaledProductInsert(a: int, rest: set<nat>, x: nat, y: nat, p: int)
    requires IsPrime(p) && a % p != 0 && rest <= Units(p) && x in Units(p) && x !in rest && y == (a * x) % p
    ensures Product(Scaled(a, rest + {x}, p)) == y * Product(Scaled(a, rest, p))
  {
    ScaledInsert(a, rest, x, p);
    ProductInsert(Scaled(a, rest, p), y);
  }

  lemma ProductInsert(s: set<nat>, y: nat)
    requires y !in s
    ensures Product(s + {y}) == y * Product(s)
  {
    ProductRemove(s + {y}, y);
    assert s + {y} - {y} == s;
  }

  lemma {:induction false} ScaledProduct(a: int, s: set<nat>, p: int)
    requires IsPrime(p) && a % p != 0 && s <= Units(p)
    ensures Cong(Product(Scaled(a, s, p)), Pow(a, |s|) * Product(s), p)
    decreases s
  {
    if s == {} {
      assert Scaled(a, s, p) == {};
    } else {
      var x :| x in s;
      var rest := s - {x};
      ScaledProduct(a, rest, p);
      assert s == rest + {x};
      ScaledProductInsert(a, rest, x, (a * x) % p, p);
      ProductRemove(s, x);
      ProductStep(a, x, Pow(a, |rest|), Product(rest), Product(Scaled(a, rest, p)), p);
      PowSucc(a, |rest|, |s|);
    }
  }

  lemma PowSucc(b: int, e: nat, e': nat)
    requires e' == e + 1
    ensures Pow(b, e') == b * Pow(b, e)
  {
  }

  lemma ProductStep(a: int, x: int, w: int, t: int, q: int, p: int)
    requires p > 0 && Cong(q, w * t, p)
    ensures Cong(((a * x) % p) * q, (a * w) * (x * t), p)
  {
    CongResidue(a * x, p);
    CongMul((a * x) % p, a * x, q, w * t, p);
    RearrangeProduct(a, x, w, t);
  }

  lemma ScaledInjective(a: int, x: nat, z: nat, p: int)
    requires IsPrime(p) && a % p != 0 && x < p && z < p
    requires (a * x) % p == (a * z) % p
    ensures x == z
  {
    CancelNonzero(a, x, z, p);
    SmallResidue(x, p);
    SmallResidue(z, p);
  }

  lemma ScaledUnion(a: int, s: set<nat>, x: nat, p: int)
    requires p > 0
    ensures Scaled(a, s + {x}, p) == Scaled(a, s, p) + {(a * x) % p}
  {
  }

  lemma ScaledInsert(a: int, s: set<nat>, x: nat, p: int)
    requires IsPrime(p) && a % p != 0 && s <= Units(p) && x in Units(p) && x !in s
    ensures Scaled(a, s + {x}, p) == Scaled(a, s, p) + {(a * x) % p}
    ensures (a * x) % p !in Scaled(a, s, p)
  {
    ScaledUnion(a, s, x, p);
    if (a * x) % p in Scaled(a, s, p) {
      var z :| z in s && (a * x) % p == (a * z) % p;
      ScaledInjective(a, x, z, p);
    }
  }

  lemma RearrangeProduct(a: int, x: int, w: int, t: int)
    ensures (a * x) * (w * t) == (a * w) * (x * t)
  {
  }

  lemma {:induction false} ProductNonzero(s: set<nat>, p: int)
    requires IsPrime(p) && s <= Units(p)
    ensures Product(s) % p != 0
    decreases s
  {
    if s == {} {
      SmallResidue(1, p);
    } else {
      var x :| x in s;
      ProductRemove(s, x);
      ProductNonzero(s - {x}, p);
      SmallResidue(x, p);
      ZeroProduct(x, Product(s - {x}), p);
    }
  }

  lemma {:induction false} SubsetSameSize(s: set<nat>, t: set<nat>)
    requires s <= t && |s| == |t|
    ensures s == t
    decreases s
  {
    if s != t {
      var x :| x in t && x !in s;
      SubsetSize(s, t - {x});
    }
  }

  lemma {:induction false} SubsetSize(s: set<nat>, t: set<nat>)
    requires s <= t
    ensures |s| <= |t|
    decreases s
  {
    if s == {} {
    } else {
      var x :| x in s;
      SubsetSize(s - {x}, t - {x});
    }
  }

  lemma ScaledUnits(a: int, p: int)
    requires IsPrime(p) && a % p != 0
    ensures Scaled(a, Units(p), p) == Units(p)
  {
    var u := Units(p);
    ScaledSize(a, u, p);
    forall y | y in Scaled(a, u, p)
      ensures y in u
    {
      var x :| x in u && y == (a * x) % p;
      SmallResidue(x, p);
      ZeroProduct(a, x, p);
    }
    SubsetSameSize(Scaled(a, u, p), u);
  }

  lemma CancelFactor(w: int, e: int, p: int)
    requires IsPrime(p) && w % p != 0 && Cong(w, e * w, p)
    ensures Cong(e, 1, p)
  {
    assert e * w == w * e && w * 1 == w;
    CancelNonzero(w, e, 1, p);
  }

  lemma ClosedSetPower(a: int, u: set<nat>, p: int)
    requires IsPrime(p) && a % p != 0 && u <= Units(p) && Scaled(a, u, p) == u
    ensures Cong(Pow(a, |u|), 1, p)
  {
    ScaledProduct(a, u, p);
    ProductNonzero(u, p);
    CancelFactor(Product(u), Pow(a, |u|), p);
  }

  lemma UnitsPower(a: int, p: int)
    requires IsPrime(p) && a % p != 0
    ensures Cong(Pow(a, |Units(p)|), 1, p)
  {
    ScaledUnits(a, p);
    ClosedSetPower(a, Units(p), p);
  }

  /** Fermat's little theorem. */
  lemma Fermat(a: int, p: int)
    requires IsPrime(p) && a % p != 0
    ensures Cong(Pow(a, p - 1), 1, p)
  {
    UnitsPower(a, p);
    assert |Units(p)| == p - 1;
  }
}
