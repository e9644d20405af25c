/** Affine point addition on y^2 = x^3 + 7 over a prime field. */
module Curve {
  import opened Wrappers
  import opened ModArith
  import opened Euclid
  import opened Primes
  import opened CurveAlgebra

  datatype Point = Point(x: int, y: int)

  /** `undefined` is the point at infinity. */
  type MaybePoint = Option<Point>

  ghost predicate OddPrime(p: int) {
    IsPrime(p) && p > 2
  }

  ghost predicate PointOnCurve(pt: Point, p: int)
    requires p > 0
  {
    0 <= pt.x < p && 0 <= pt.y < p && Cong(pt.y * pt.y, pt.x * pt.x * pt.x + 7, p)
  }

  ghost predicate OnCurve(pt: MaybePoint, p: int)
    requires p > 0
  {
    pt.Some? ==> PointOnCurve(pt.value, p)
  }

  /** The third crossing, reflected, of the line of slope s through (x1, y1) that also meets x2. */
  function Reflected(s: int, x1: int, y1: int, x2: int, p: int): Point
    requires p > 0
  {
    var x := (s * s - x1 - x2) % p;
    Point(x, (s * (x1 - x) - y1) % p)
  }

  ghost function DoubleOutcome(p: int, pt: Point): Outcome<MaybePoint>
    requires p > 0
  {
    if pt.y == 0 then Returned(None) else
      var inv :- InvertOutcome(2 * pt.y, p);
      Returned(Some(Reflected((3 * pt.x * pt.x * inv) % p, pt.x, pt.y, pt.x, p)))
  }

  ghost function AddOutcome(p: int, a: MaybePoint, b: MaybePoint): Outcome<MaybePoint>
    requires p > 0
  {
    if a.None? then Returned(b)
    else if b.None? then Returned(a)
    else if a.value.x == b.value.x then
      if (a.value.y + b.value.y) % p == 0 then Returned(None) else DoubleOutcome(p, a.value)
    else
      var inv :- InvertOutcome(b.value.x - a.value.x, p);
      Returned(Some(Reflected(((b.value.y - a.value.y) * inv) % p, a.value.x, a.value.y, b.value.x, p)))
  }

  // ----- Closure

  lemma DifferenceNonzero(u: int, v: int, p: int)
    requires 0 <= u < p && 0 <= v < p && u != v
    ensures (v - u) % p != 0
  {
  }

  lemma DoubleNonzero(y: int, p: int)
    requires OddPrime(p) && 0 < y < p
    ensures (2 * y) % p != 0
  {
    SmallResidue(2, p);
    SmallResidue(y, p);
    ZeroProduct(2, y, p);
  }

  lemma SlopeSolves(num: int, den: int, inv: int, p: int)
    requires p > 0 && Cong(den * inv, 1, p)
    ensures Cong(((num * inv) % p) * den, num, p)
  {
    CongResidue(num * inv, p);
    CongMul((num * inv) % p, num * inv, den, den, p);
    CongMul(num, num, den * inv, 1, p);
    assert (num * inv) * den == num * (den * inv);
  }

  lemma ReflectedCloses(s: int, x1: int, y1: int, x2: int, p: int)
    requires p > 0
    requires Miss(s, y1 - s * x1, s * s - x1 - x2) % p == 0
    ensures PointOnCurve(Reflected(s, x1, y1, x2, p), p)
  {
    var t := y1 - s * x1;
    var third := s * s - x1 - x2;
    var x := third % p;
    var y := (s * (x1 - x) - y1) % p;
    CongResidue(third, p);
    MissCong(s, t, x, third, p);
    CongResidue(s * (x1 - x) - y1, p);
    Distribute(s, x1, -x);
    assert s * (x1 - x) - y1 == -(s * x + t);
    CongAdd(0, 0, y, -(s * x + t), p);
    MissZeroIsOnCurve(s, t, x, y, p);
  }

  /** Where a line misses nothing at two abscissas, it misses nothing at the third crossing. */
  lemma ThirdMisses(s: int, t: int, a: int, b: int, third: int, p: int)
    requires IsPrime(p) && 0 <= a < p && 0 <= b < p && a != b && third == s * s - a - b
    requires Miss(s, t, a) % p == 0 && Miss(s, t, b) % p == 0
    ensures Miss(s, t, third) % p == 0
  {
    ChordIdentity(s, t, a, b, third);
    CombineZeros(Miss(s, t, a), b - third, Miss(s, t, b), third - a, p);
    DifferenceNonzero(a, b, p);
    ZeroProduct(Miss(s, t, third), b - a, p);
  }

  /** The line of slope s through (x1, y1) has at x2 the height it should. */
  lemma HeightAt(s: int, x1: int, y1: int, x2: int, y2: int, p: int)
    requires p > 0 && Cong(s * (x2 - x1), y2 - y1, p)
    ensures Cong(s * x2 + (y1 - s * x1), y2, p)
  {
    CongAdd(s * (x2 - x1), y2 - y1, y1, y1, p);
    Distribute(s, x2, -x1);
  }

  lemma ChordCloses(s: int, a: Point, b: Point, p: int)
    requires OddPrime(p) && PointOnCurve(a, p) && PointOnCurve(b, p) && a.x != b.x
    requires Cong(s * (b.x - a.x), b.y - a.y, p)
    ensures PointOnCurve(Reflected(s, a.x, a.y, b.x, p), p)
  {
    var t := a.y - s * a.x;
    MissZero(s, t, a.x, a.y, p);
    HeightAt(s, a.x, a.y, b.x, b.y, p);
    MissZero(s, t, b.x, b.y, p);
    ThirdMisses(s, t, a.x, b.x, s * s - a.x - b.x, p);
    ReflectedCloses(s, a.x, a.y, b.x, p);
  }

  lemma CombineZeros(a: int, j: int, b: int, k: int, p: int)
    requires p > 0 && a % p == 0 && b % p == 0
    ensures (a * j + b * k) % p == 0
  {
    DividesCombination(p, a, b, j, k);
  }

  lemma TangentCloses(s: int, a: Point, p: int)
    requires OddPrime(p) && PointOnCurve(a, p)
    requires Cong(s * (2 * a.y), 3 * a.x * a.x, p)
    ensures PointOnCurve(Reflected(s, a.x, a.y, a.x, p), p)
  {
    var t := a.y - s * a.x;
    var third := s * s - 2 * a.x;
    MissZero(s, t, a.x, a.y, p);
    var k := 3 * a.x * a.x - 2 * s * a.y;
    assert s * (2 * a.y) == 2 * s * a.y;
    CongZeroDiff(3 * a.x * a.x, s * (2 * a.y), p);
    TangentIdentity(s, t, a.x, a.y, third);
    CombineZeros(Miss(s, t, a.x), 1, k, third - a.x, p);
    ReflectedCloses(s, a.x, a.y, a.x, p);
  }

  /** The chord slope the code computes for two curve points. */
  lemma ChordSlope(p: int, a: Point, b: Point) returns (s: int)
    requires OddPrime(p) && PointOnCurve(a, p) && PointOnCurve(b, p) && a.x != b.x
    ensures 0 <= s < p && Cong(s * (b.x - a.x), b.y - a.y, p)
    ensures AddOutcome(p, Some(a), Some(b)) == Returned(Some(Reflected(s, a.x, a.y, b.x, p)))
  {
    DifferenceNonzero(a.x, b.x, p);
    var inv := InverseOfNonzero(b.x - a.x, p);
    s := ((b.y - a.y) * inv) % p;
    SlopeSolves(b.y - a.y, b.x - a.x, inv, p);
  }

  lemma TangentSlopeOf(p: int, a: Point) returns (s: int)
    requires OddPrime(p) && PointOnCurve(a, p) && a.y != 0
    ensures 0 <= s < p && Cong(s * (2 * a.y), 3 * a.x * a.x, p)
    ensures DoubleOutcome(p, a) == Returned(Some(Reflected(s, a.x, a.y, a.x, p)))
  {
    DoubleNonzero(a.y, p);
    var inv := InverseOfNonzero(2 * a.y, p);
    s := (3 * a.x * a.x * inv) % p;
    SlopeSolves(3 * a.x * a.x, 2 * a.y, inv, p);
  }

  /** Two curve points with one abscissa are equal or opposite. */
  lemma SameAbscissa(a: Point, b: Point, p: int)
    requires OddPrime(p) && PointOnCurve(a, p) && PointOnCurve(b, p) && a.x == b.x
    ensures (a.y + b.y) % p == 0 || a == b
    ensures (a.y + b.y) % p == 0 && a == b ==> a.y == 0
    ensures (a.y + b.y) % p == 0 ==> b.y == (-a.y) % p
  {
    CongZeroDiff(a.y * a.y, b.y * b.y, p);
    assert a.y * a.y - b.y * b.y == (a.y + b.y) * (a.y - b.y);
    ZeroProduct(a.y + b.y, a.y - b.y, p);
    if a.y != b.y {
      DifferenceNonzero(b.y, a.y, p);
    } else if a.y > 0 {
      DoubleNonzero(a.y, p);
    }
    if (a.y + b.y) % p == 0 {
      CongZeroDiff(b.y, -a.y, p);
      SmallResidue(b.y, p);
    }
  }

  /**
    * Closure: adding two curve points never throws and gives a curve point or infinity, and the
    * doubling branch is reached only with two equal points of non-zero ordinate.
    */
  lemma AddCloses(p: int, a: MaybePoint, b: MaybePoint)
    requires OddPrime(p) && OnCurve(a, p) && OnCurve(b, p)
    ensures AddOutcome(p, a, b).Returned? && OnCurve(AddOutcome(p, a, b).value, p)
    ensures a.Some? && b.Some? && a.value.x == b.value.x && (a.value.y + b.value.y) % p != 0 ==>
              a == b && a.value.y != 0
  {
    if a.Some? && b.Some? {
      if a.value.x != b.value.x {
        var s := ChordSlope(p, a.value, b.value);
        ChordCloses(s, a.value, b.value, p);
      } else {
        SameAbscissa(a.value, b.value, p);
        if (a.value.y + b.value.y) % p != 0 {
          if a.value.y == 0 {
            SmallResidue(0, p);
          }
          var s := TangentSlopeOf(p, a.value);
          TangentCloses(s, a.value, p);
        }
      }
    }
  }

  /** Addition on the curve. */
  ghost function Plus(p: int, a: MaybePoint, b: MaybePoint): (r: MaybePoint)
    requires OddPrime(p) && OnCurve(a, p) && OnCurve(b, p)
    ensures OnCurve(r, p)
  {
    AddCloses(p, a, b);
    AddOutcome(p, a, b).value
  }

  /** `pointDouble` is addition of a curve point to itself. */
  lemma DoubleIsSelfAddition(p: int, a: Point)
    requires OddPrime(p) && PointOnCurve(a, p)
    ensures DoubleOutcome(p, a) == Returned(Plus(p, Some(a), Some(a)))
  {
    AddCloses(p, Some(a), Some(a));
    if a.y > 0 {
      DoubleNonzero(a.y, p);
    } else {
      SmallResidue(0, p);
    }
  }

  // ----- The group law, in the words of section 2.2.1 of SEC 1

  /** The line through (x1, y1) and slope num/den meets the cubic at x1, x2 and, at height -c.y, at c.x. */
  ghost predicate OnLine(num: int, den: int, x1: int, y1: int, x2: int, c: Point, p: int)
    requires p > 0
  {
    && Cong(den * (c.y + y1), num * (x1 - c.x), p)
    && Cong(den * den * (c.x + x1 + x2), num * num, p)
  }

  /** The opposite of c lies on the chord through a and b, and the three abscissas add up to its squared slope. */
  ghost predicate OnChord(a: Point, b: Point, c: Point, p: int)
    requires p > 0
  {
    && Cong((b.x - a.x) * (c.y + a.y), (b.y - a.y) * (a.x - c.x), p)
    && Cong((b.x - a.x) * (b.x - a.x) * (c.x + a.x + b.x), (b.y - a.y) * (b.y - a.y), p)
  }

  /** The opposite of c lies on the tangent at a. */
  ghost predicate OnTangent(a: Point, c: Point, p: int)
    requires p > 0
  {
    && Cong(2 * a.y * (c.y + a.y), 3 * a.x * a.x * (a.x - c.x), p)
    && Cong(4 * a.y * a.y * (c.x + 2 * a.x), 9 * a.x * a.x * a.x * a.x, p)
  }

  /** What the sum of two curve points is, without slopes and inverses. */
  ghost predicate IsSum(a: MaybePoint, b: MaybePoint, c: MaybePoint, p: int)
    requires p > 0
  {
    if a.None? then c == b
    else if b.None? then c == a
    else if a.value.x == b.value.x && (a.value.y + b.value.y) % p == 0 then c == None
    else if a == b then c.Some? && OnTangent(a.value, c.value, p)
    else c.Some? && OnChord(a.value, b.value, c.value, p)
  }

  lemma ReflectedOnLine(s: int, num: int, den: int, x1: int, y1: int, x2: int, p: int)
    requires p > 0 && Cong(s * den, num, p)
    ensures OnLine(num, den, x1, y1, x2, Reflected(s, x1, y1, x2, p), p)
  {
    var c := Reflected(s, x1, y1, x2, p);
    CongResidue(s * s - x1 - x2, p);
    CongAdd(c.x, s * s - x1 - x2, x1 + x2, x1 + x2, p);
    CongMul(den * den, den * den, c.x + x1 + x2, s * s, p);
    SquareOut(s, den);
    CongMul(s * den, num, s * den, num, p);
    CongResidue(s * (x1 - c.x) - y1, p);
    CongAdd(c.y, s * (x1 - c.x) - y1, y1, y1, p);
    CongMul(den, den, c.y + y1, s * (x1 - c.x), p);
    CongMul(s * den, num, x1 - c.x, x1 - c.x, p);
    assert den * (s * (x1 - c.x)) == (s * den) * (x1 - c.x);
  }

  lemma SquareOut(s: int, d: int)
    ensures d * d * (s * s) == (s * d) * (s * d)
  {
  }

  /** A line that is not vertical has one such point. */
  lemma LineDetermines(num: int, den: int, x1: int, y1: int, x2: int, c: Point, c': Point, p: int)
    requires IsPrime(p) && den % p != 0 && OnLine(num, den, x1, y1, x2, c, p) && OnLine(num, den, x1, y1, x2, c', p)
    requires 0 <= c.x < p && 0 <= c.y < p && 0 <= c'.x < p && 0 <= c'.y < p
    ensures c == c'
  {
    ZeroProduct(den, den, p);
    CancelShifted(den * den, c.x, c'.x, x1 + x2, p);
    CancelShifted(den, c.y, c'.y, y1, p);
  }

  lemma CancelShifted(d: int, u: int, v: int, w: int, p: int)
    requires IsPrime(p) && d % p != 0 && 0 <= u < p && 0 <= v < p
    ensures Cong(d * (u + w), d * (v + w), p) ==> u == v
  {
    if Cong(d * (u + w), d * (v + w), p) {
      CancelNonzero(d, u + w, v + w, p);
      CongAdd(u + w, v + w, w, w, p);
      SmallResidue(u, p);
      SmallResidue(v, p);
    }
  }

  lemma TangentIsLine(a: Point, c: Point, p: int)
    requires p > 0
    ensures OnTangent(a, c, p) <==> OnLine(3 * a.x * a.x, 2 * a.y, a.x, a.y, a.x, c, p)
  {
    FourfoldSquare(a.y, c.x + 2 * a.x);
    assert (3 * a.x * a.x) * (3 * a.x * a.x) == 9 * a.x * a.x * a.x * a.x;
  }

  lemma FourfoldSquare(y: int, t: int)
    ensures (2 * y) * (2 * y) * t == 4 * y * y * t
  {
  }

  lemma SumOfChord(p: int, a: Point, b: Point, c: Point)
    requires OddPrime(p) && PointOnCurve(a, p) && PointOnCurve(b, p) && PointOnCurve(c, p) && a.x != b.x
    ensures Plus(p, Some(a), Some(b)) == Some(c) <==> OnChord(a, b, c, p)
  {
    var s := ChordSlope(p, a, b);
    var sum := Reflected(s, a.x, a.y, b.x, p);
    ReflectedOnLine(s, b.y - a.y, b.x - a.x, a.x, a.y, b.x, p);
    DifferenceNonzero(a.x, b.x, p);
    if OnChord(a, b, c, p) {
      LineDetermines(b.y - a.y, b.x - a.x, a.x, a.y, b.x, c, sum, p);
    }
  }

  lemma SumOfTangent(p: int, a: Point, c: Point)
    requires OddPrime(p) && PointOnCurve(a, p) && PointOnCurve(c, p) && a.y != 0
    ensures Plus(p, Some(a), Some(a)) == Some(c) <==> OnTangent(a, c, p)
  {
    var s := TangentSlopeOf(p, a);
    DoubleIsSelfAddition(p, a);
    var sum := Reflected(s, a.x, a.y, a.x, p);
    ReflectedOnLine(s, 3 * a.x * a.x, 2 * a.y, a.x, a.y, a.x, p);
    TangentIsLine(a, c, p);
    DoubleNonzero(a.y, p);
    if OnTangent(a, c, p) {
      LineDetermines(3 * a.x * a.x, 2 * a.y, a.x, a.y, a.x, c, sum, p);
    }
  }

  /** The group law decides the sum: nothing else satisfies it. */
  lemma PlusIsSum(p: int, a: MaybePoint, b: MaybePoint, c: MaybePoint)
    requires OddPrime(p) && OnCurve(a, p) && OnCurve(b, p) && OnCurve(c, p)
    ensures Plus(p, a, b) == c <==> IsSum(a, b, c, p)
  {
    if a.Some? && b.Some? {
      if a.value.x == b.value.x {
        SumAtAbscissa(p, a.value, b.value, c);
      } else {
        var s := ChordSlope(p, a.value, b.value);
        if c.Some? {
          SumOfChord(p, a.value, b.value, c.value);
        }
      }
    }
  }

  lemma SumAtAbscissa(p: int, a: Point, b: Point, c: MaybePoint)
    requires OddPrime(p) && PointOnCurve(a, p) && PointOnCurve(b, p) && OnCurve(c, p) && a.x == b.x
    ensures Plus(p, Some(a), Some(b)) == c <==> IsSum(Some(a), Some(b), c, p)
  {
    SameAbscissa(a, b, p);
    if (a.y + b.y) % p != 0 {
      AddCloses(p, Some(a), Some(b));
      var s := TangentSlopeOf(p, a);
      if c.Some? {
        SumOfTangent(p, a, c.value);
      }
    }
  }

  // ----- Commutativity and opposites

  lemma ChordCommutes(p: int, a: Point, b: Point)
    requires OddPrime(p) && PointOnCurve(a, p) && PointOnCurve(b, p) && a.x != b.x
    ensures AddOutcome(p, Some(a), Some(b)) == AddOutcome(p, Some(b), Some(a))
  {
    var s := ChordSlope(p, a, b);
    var s' := ChordSlope(p, b, a);
    SlopesAgree(s, s', a, b, p);
    var x := (s * s - a.x - b.x) % p;
    SameHeight(s, a, b, x, p);
    ReflectedSwaps(s, a, b, x, p);
  }

  /** The third point of a chord is the same from either end. */
  lemma ReflectedSwaps(s: int, a: Point, b: Point, x: int, p: int)
    requires p > 0 && x == (s * s - a.x - b.x) % p && Cong(s * (a.x - x) - a.y, s * (b.x - x) - b.y, p)
    ensures Reflected(s, a.x, a.y, b.x, p) == Reflected(s, b.x, b.y, a.x, p)
  {
  }

  lemma SameHeight(s: int, a: Point, b: Point, x: int, p: int)
    requires p > 0 && Cong(s * (b.x - a.x), b.y - a.y, p)
    ensures Cong(s * (a.x - x) - a.y, s * (b.x - x) - b.y, p)
  {
    assert (s * (a.x - x) - a.y) - (s * (b.x - x) - b.y) == (b.y - a.y) - s * (b.x - a.x);
    CongZeroDiff(b.y - a.y, s * (b.x - a.x), p);
    CongZeroDiff(s * (a.x - x) - a.y, s * (b.x - x) - b.y, p);
  }

  lemma SlopesAgree(s: int, s': int, a: Point, b: Point, p: int)
    requires OddPrime(p) && 0 <= a.x < p && 0 <= b.x < p && a.x != b.x
    requires 0 <= s < p && 0 <= s' < p
    requires Cong(s * (b.x - a.x), b.y - a.y, p) && Cong(s' * (a.x - b.x), a.y - b.y, p)
    ensures s == s'
  {
    var d := b.x - a.x;
    CongAdd(0, 0, s' * (a.x - b.x), a.y - b.y, p);
    assert 0 - s' * (a.x - b.x) == d * s';
    assert s * d == d * s;
    DifferenceNonzero(a.x, b.x, p);
    CancelNonzero(d, s, s', p);
    SmallResidue(s, p);
    SmallResidue(s', p);
  }

  /** Addition commutes. */
  lemma PlusCommutes(p: int, a: MaybePoint, b: MaybePoint)
    requires OddPrime(p) && OnCurve(a, p) && OnCurve(b, p)
    ensures Plus(p, a, b) == Plus(p, b, a)
  {
    if a.Some? && b.Some? {
      if a.value.x != b.value.x {
        ChordCommutes(p, a.value, b.value);
      } else {
        SameAbscissa(a.value, b.value, p);
      }
    }
  }

  /** `pointNegate`. */
  function Negate(pt: Point, p: int): Point
    requires p > 0
  {
    Point(pt.x, Mod(-pt.y, p))
  }

  /** The negation of a curve point is a curve point, and the two add up to infinity. */
  lemma NegateCancels(p: int, a: Point)
    requires OddPrime(p) && PointOnCurve(a, p)
    ensures PointOnCurve(Negate(a, p), p)
    ensures Plus(p, Some(a), Some(Negate(a, p))) == None
    ensures Negate(a, p).y == if a.y == 0 then 0 else p - a.y
    ensures Negate(Negate(a, p), p) == a
  {
    ModIsResidue(-a.y, p);
    if a.y == 0 {
      SmallResidue(0, p);
      ModIsResidue(0, p);
    } else {
      DivModUnique(-a.y, -1, p - a.y, p);
      DivModUnique(-(p - a.y), -1, a.y, p);
      ModIsResidue(-(p - a.y), p);
      NegatedSquare(a.y, p);
      MultipleIsZero(p, 1, p);
    }
  }

  lemma NegatedSquare(y: int, p: int)
    requires p > 0
    ensures Cong((p - y) * (p - y), y * y, p)
  {
    CongFromMultiple(p - y, -y, 1, p);
    CongMul(p - y, -y, p - y, -y, p);
    assert -y * -y == y * y;
  }

  /** The only curve point that adds with `a` to infinity is its negation. */
  lemma OppositeIsUnique(p: int, a: Point, b: MaybePoint)
    requires OddPrime(p) && PointOnCurve(a, p) && OnCurve(b, p)
    ensures Plus(p, Some(a), b) == None <==> b == Some(Negate(a, p))
  {
    NegateCancels(p, a);
    if b.Some? && Plus(p, Some(a), b) == None {
      if a.x != b.value.x {
        var s := ChordSlope(p, a, b.value);
      } else {
        SameAbscissa(a, b.value, p);
        ModIsResidue(-a.y, p);
        if (a.y + b.value.y) % p != 0 {
          var s := TangentSlopeOf(p, a);
        }
      }
    }
  }

  // ----- The methods

  /** The point on the line of the given slope, step by step. */
  method ThirdPoint(slope: int, x1: int, y1: int, x2: int, p: int) returns (pt: Point)
    requires p > 0
    ensures pt == Reflected(slope, x1, y1, x2, p)
  {
    var x := Reduce(slope * slope - x1 - x2, p);
    var y := Reduce(slope * (x1 - x) - y1, p);
    pt := Point(x, y);
  }

  /** `pointDouble`, on any coordinates. */
  method PointDouble(p: int, pt: Point) returns (r: Outcome<MaybePoint>)
    requires p > 0
    ensures r == DoubleOutcome(p, pt)
    ensures OddPrime(p) && PointOnCurve(pt, p) ==> r == Returned(Plus(p, Some(pt), Some(pt)))
    ensures OddPrime(p) && PointOnCurve(pt, p) ==> IsSum(Some(pt), Some(pt), r.value, p)
  {
    if OddPrime(p) && PointOnCurve(pt, p) {
      DoubleIsSelfAddition(p, pt);
      PlusIsSum(p, Some(pt), Some(pt), Plus(p, Some(pt), Some(pt)));
    }
    if pt.y == 0 {
      return Returned(None);
    }
    var inv, _, _ := InvertMod(2 * pt.y, p);
    if inv.Threw? {
      return Threw;
    }
    var slope := Reduce(3 * pt.x * pt.x * inv.value, p);
    var third := ThirdPoint(slope, pt.x, pt.y, pt.x, p);
    r := Returned(Some(third));
  }

  lemma AddIsPlus(p: int, a: MaybePoint, b: MaybePoint)
    requires p > 0
    ensures OddPrime(p) && OnCurve(a, p) && OnCurve(b, p) ==>
              AddOutcome(p, a, b) == Returned(Plus(p, a, b)) && IsSum(a, b, Plus(p, a, b), p)
  {
    if OddPrime(p) && OnCurve(a, p) && OnCurve(b, p) {
      AddCloses(p, a, b);
      PlusIsSum(p, a, b, Plus(p, a, b));
    }
  }

  /** `pointAdd`, on any coordinates. */
  method PointAdd(p: int, a: MaybePoint, b: MaybePoint) returns (r: Outcome<MaybePoint>)
    requires p > 0
    ensures r == AddOutcome(p, a, b)
    ensures OddPrime(p) && OnCurve(a, p) && OnCurve(b, p) ==> r == Returned(Plus(p, a, b))
    ensures OddPrime(p) && OnCurve(a, p) && OnCurve(b, p) ==> IsSum(a, b, r.value, p)
  {
    AddIsPlus(p, a, b);
    if a.None? {
      return Returned(b);
    }
    if b.None? {
      return Returned(a);
    }
    var u, w := a.value, b.value;
    if u.x == w.x {
      var sum := Reduce(u.y + w.y, p);
      if sum == 0 {
        return Returned(None);
      }
      r := PointDouble(p, u);
      return r;
    }
    var inv, _, _ := InvertMod(w.x - u.x, p);
    if inv.Threw? {
      return Threw;
    }
    var slope := Reduce((w.y - u.y) * inv.value, p);
    var third := ThirdPoint(slope, u.x, u.y, w.x, p);
    r := Returned(Some(third));
  }
}
