/** Arithmetic modulo m, with JavaScript's truncating remainder made explicit. */
module ModArith {

  /** BigInt `%`: the result takes the sign of the dividend. */
  function TruncRem(a: int, m: int): int
    requires m > 0
  {
    if a >= 0 then a % m else -((-a) % m)
  }

  /** `mod(value, modulo)`: the truncated remainder, lifted by `modulo` when negative. */
  function Mod(value: int, modulo: int): int
    requires modulo > 0
  {
    var result := TruncRem(value, modulo);
    if result >= 0 then result else result + modulo
  }

  /** The code's reduction is the residue in [0, modulo) for operands of either sign. */
  lemma ModIsResidue(value: int, modulo: int)
    requires modulo > 0
    ensures Mod(value, modulo) == value % modulo
    ensures 0 <= Mod(value, modulo) < modulo
  {
    if value < 0 {
      var k, r := (-value) / modulo, (-value) % modulo;
      assert -value == modulo * k + r;
      if r == 0 {
        DivModUnique(value, -k, 0, modulo);
      } else {
        assert value == modulo * (-k - 1) + (modulo - r) by { Distribute(modulo, -k, -1); }
        DivModUnique(value, -k - 1, modulo - r, modulo);
      }
    }
  }

  /** A reduction step of a method: `mod`, known by its result alone. */
  method Reduce(value: int, modulo: int) returns (r: int)
    requires modulo > 0
    ensures r == value % modulo && 0 <= r < modulo
  {
    ModIsResidue(value, modulo);
    r := Mod(value, modulo);
  }

  ghost predicate Cong(a: int, b: int, m: int)
    requires m > 0
  {
    a % m == b % m
  }

  lemma Distribute(a: int, b: int, c: int)
    ensures a * (b + c) == a * b + a * c
  {
  }

  lemma DivModUnique(a: int, q: int, r: int, m: int)
    requires m > 0 && 0 <= r < m && a == m * q + r
    ensures a / m == q && a % m == r
  {
    var q', r' := a / m, a % m;
    assert a == m * q' + r';
    assert m * (q - q') == r' - r by { Distribute(m, q, -q'); }
    if q - q' >= 1 {
      MulMonotone(m, 1, q - q');
      assert false;
    }
    if q - q' <= -1 {
      MulMonotone(m, q - q', -1);
      assert false;
    }
  }

  lemma Quotient(k: nat, n: int) returns (q: nat, r: nat)
    requires n > 0
    ensures q == k / n && r == k % n && k == n * q + r
  {
    q, r := k / n, k % n;
  }

  lemma MulMonotone(m: int, x: int, y: int)
    requires m >= 0 && x <= y
    ensures m * x <= m * y
  {
  }

  /** Congruence in witness form: the difference is a multiple of the modulus. */
  lemma CongFromMultiple(a: int, b: int, k: int, m: int)
    requires m > 0 && a == b + m * k
    ensures Cong(a, b, m)
  {
    var q, r := b / m, b % m;
    assert b == m * q + r;
    assert a == m * (q + k) + r by { Distribute(m, q, k); }
    DivModUnique(a, q + k, r, m);
  }

  lemma CongWitness(a: int, b: int, m: int) returns (k: int)
    requires m > 0 && Cong(a, b, m)
    ensures a == b + m * k
  {
    k := a / m - b / m;
    assert a == m * (a / m) + a % m && b == m * (b / m) + b % m;
    Distribute(m, a / m, -(b / m));
  }

  lemma CongResidue(a: int, m: int)
    requires m > 0
    ensures Cong(a % m, a, m)
  {
  }

  lemma CongAdd(a: int, a': int, b: int, b': int, m: int)
    requires m > 0 && Cong(a, a', m) && Cong(b, b', m)
    ensures Cong(a + b, a' + b', m)
    ensures Cong(a - b, a' - b', m)
  {
    var j := CongWitness(a, a', m);
    var k := CongWitness(b, b', m);
    Distribute(m, j, k);
    Distribute(m, j, -k);
    CongFromMultiple(a + b, a' + b', j + k, m);
    CongFromMultiple(a - b, a' - b', j - k, m);
  }

  lemma MulShift(a: int, m: int, j: int, b: int)
    ensures (a + m * j) * b == a * b + m * (j * b)
  {
  }

  lemma CongScale(a: int, a': int, b: int, m: int)
    requires m > 0 && Cong(a, a', m)
    ensures Cong(a * b, a' * b, m)
  {
    var j := CongWitness(a, a', m);
    MulShift(a', m, j, b);
    CongFromMultiple(a * b, a' * b, j * b, m);
  }

  lemma CongMul(a: int, a': int, b: int, b': int, m: int)
    requires m > 0 && Cong(a, a', m) && Cong(b, b', m)
    ensures Cong(a * b, a' * b', m)
  {
    CongScale(a, a', b, m);
    CongScale(b, b', a', m);
    assert b * a' == a' * b && b' * a' == a' * b';
  }

  lemma CongZeroDiff(a: int, b: int, m: int)
    requires m > 0
    ensures Cong(a, b, m) <==> (a - b) % m == 0
  {
    if Cong(a, b, m) {
      var k := CongWitness(a, b, m);
      DivModUnique(a - b, k, 0, m);
    }
    if (a - b) % m == 0 {
      assert a - b == m * ((a - b) / m);
      CongFromMultiple(a, b, (a - b) / m, m);
    }
  }

  lemma SmallResidue(a: int, m: int)
    requires 0 <= a < m
    ensures a % m == a
  {
  }

  lemma MultipleIsZero(a: int, k: int, m: int)
    requires m > 0 && a == m * k
    ensures a % m == 0
  {
    DivModUnique(a, k, 0, m);
  }
}
