/** Square roots modulo a prime that is 3 modulo 4. */
module SquareRoots {
  import opened ModArith
  import opened Euclid
  import opened Primes

  ghost predicate IsRoot(y: int, alpha: int, p: int)
    requires p > 0
  {
    Cong(y * y, alpha, p)
  }

  /** beta = alpha^((p+1)/4), the candidate root of the recovery code. */
  function RootCandidate(alpha: int, p: int): int
    requires p > 0
  {
    Pow(alpha, (p + 1) / 4) % p
  }

  lemma CandidateOfSquare(y: int, p: int)
    requires IsPrime(p) && p % 4 == 3 && y % p != 0
    ensures Cong(Pow(y * y, (p + 1) / 4) * Pow(y * y, (p + 1) / 4), y * y, p)
  {
    var e := (p + 1) / 4;
    PowOfSquare(y, e);
    PowAdd(y, 2 * e, 2 * e);
    assert 4 * e == (p - 1) + 2;
    PowAdd(y, p - 1, 2);
    assert Pow(y, 2) == y * y by { assert Pow(y, 1) == y; }
    Fermat(y, p);
    CongMul(Pow(y, p - 1), 1, y * y, y * y, p);
  }

  /** The candidate is a root exactly when a root exists at all. */
  lemma CandidateIsRootIffSquare(alpha: int, p: int)
    requires IsPrime(p) && p % 4 == 3
    ensures IsRoot(RootCandidate(alpha, p), alpha, p) <==> exists y :: IsRoot(y, alpha, p)
  {
    if y :| IsRoot(y, alpha, p) {
      var e := (p + 1) / 4;
      var b := Pow(alpha, e);
      CongResidue(b, p);
      CongMul(b % p, b, b % p, b, p);
      PowCong(y * y, alpha, e, p);
      var c := Pow(y * y, e);
      CongMul(c, b, c, b, p);
      if y % p != 0 {
        CandidateOfSquare(y, p);
      } else {
        ZeroProduct(y, y, p);
        assert c == (y * y) * Pow(y * y, e - 1);
        ZeroProduct(y * y, Pow(y * y, e - 1), p);
        ZeroProduct(c, c, p);
      }
    }
  }

  /** An odd power of -a is minus that power of a. */
  lemma {:induction false} OddPowerOfNegation(a: int, e: nat)
    ensures Pow(-a, e) == if e % 2 == 1 then -Pow(a, e) else Pow(a, e)
  {
    if e == 0 {
    } else {
      OddPowerOfNegation(a, e - 1);
      assert -a * Pow(a, e - 1) == -(a * Pow(a, e - 1));
      assert -a * -Pow(a, e - 1) == a * Pow(a, e - 1);
    }
  }

  lemma HalfPowerOfSquare(y: int, a: int, p: int)
    requires IsPrime(p) && p > 2 && a % p != 0 && IsRoot(y, a, p)
    ensures Cong(Pow(a, (p - 1) / 2), 1, p)
  {
    var h := (p - 1) / 2;
    assert p % 2 == 1;
    assert y % p != 0 by {
      if y % p == 0 {
        ZeroProduct(y, y, p);
      }
    }
    Fermat(y, p);
    PowOfSquare(y, h);
    assert 2 * h == p - 1;
    PowCong(y * y, a, h, p);
  }

  lemma NegatedNonzero(a: int, p: int)
    requires p > 0 && a % p != 0
    ensures (-a) % p != 0
  {
    if (-a) % p == 0 {
      CongZeroDiff(0, a, p);
      SmallResidue(0, p);
    }
  }

  lemma OneIsNotMinusOne(w: int, p: int)
    requires p > 2 && Cong(w, 1, p)
    ensures !Cong(-w, 1, p)
  {
    if Cong(-w, 1, p) {
      CongAdd(w, 1, -w, 1, p);
      SmallResidue(0, p);
      SmallResidue(2, p);
    }
  }

  /** An odd power is not congruent to one for both a and -a. */
  lemma HalfPowersDiffer(a: int, e: nat, w: int, p: int)
    requires p > 2 && e % 2 == 1 && w == Pow(a, e) && Cong(w, 1, p)
    ensures !Cong(Pow(-a, e), 1, p)
  {
    OddPowerOfNegation(a, e);
    OneIsNotMinusOne(w, p);
  }

  lemma OddHalf(p: int)
    requires p % 4 == 3
    ensures ((p - 1) / 2) % 2 == 1
  {
  }

  lemma OppositeHalves(a: int, p: int)
    requires p % 4 == 3 && p > 2 && Cong(Pow(a, (p - 1) / 2), 1, p)
    ensures !Cong(Pow(-a, (p - 1) / 2), 1, p)
  {
    var h := (p - 1) / 2;
    OddHalf(p);
    HalfPowersDiffer(a, h, Pow(a, h), p);
  }

  /** Modulo a prime that is 3 modulo 4, a number and its opposite are not both squares. */
  lemma OppositeOfSquareIsNoSquare(y: int, z: int, a: int, p: int)
    requires IsPrime(p) && p % 4 == 3 && a % p != 0 && IsRoot(y, -a, p)
    ensures !IsRoot(z, a, p)
  {
    if IsRoot(z, a, p) {
      NegatedNonzero(a, p);
      HalfPowerOfSquare(z, a, p);
      HalfPowerOfSquare(y, -a, p);
      OppositeHalves(a, p);
    }
  }

  /** A number has at most two roots, opposite to each other. */
  lemma RootsAreOpposite(y: int, z: int, alpha: int, p: int)
    requires IsPrime(p) && IsRoot(y, alpha, p) && IsRoot(z, alpha, p)
    requires 0 <= y < p && 0 <= z < p
    ensures z == y || z == p - y
  {
    CongZeroDiff(y * y, z * z, p);
    assert y * y - z * z == (y - z) * (y + z);
    ZeroProduct(y - z, y + z, p);
    if (y - z) % p == 0 {
      CongZeroDiff(y, z, p);
      SmallResidue(y, p);
      SmallResidue(z, p);
    } else {
      CongZeroDiff(y, p - z, p);
      CongFromMultiple(y + z, y - (p - z), 1, p);
      if z > 0 {
        SmallResidue(p - z, p);
        SmallResidue(y, p);
      } else {
        SmallResidue(y, p);
        SmallResidue(0, p);
        MultipleIsZero(p, 1, p);
      }
    }
  }

  /** Opposite non-zero residues differ in parity, so a parity bit picks one of the two roots. */
  lemma ParityPicksRoot(beta: int, y: int, alpha: int, p: int)
    requires IsPrime(p) && p % 2 == 1
    requires IsRoot(beta, alpha, p) && IsRoot(y, alpha, p)
    requires 0 <= beta < p && 0 < y < p
    ensures y == if beta % 2 == y % 2 then beta else p - beta
  {
    RootsAreOpposite(beta, y, alpha, p);
  }
}
