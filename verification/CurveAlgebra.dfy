/** Integer identities behind chords and tangents of y^2 = x^3 + 7. */
module CurveAlgebra {
  import opened ModArith
  import opened Euclid
  import opened Primes

  /** How far the line y = s*x + t misses the curve at x. */
  function Miss(s: int, t: int, x: int): int {
    x * x * x + 7 - (s * x + t) * (s * x + t)
  }

  /** Linear part left after removing the three crossings from Miss. */
  function Slope(s: int, t: int, a: int, b: int, c: int): int {
    -2 * s * t - (a * b + a * c + b * c)
  }

  function Offset(s: int, t: int, a: int, b: int, c: int): int {
    7 - t * t + a * b * c
  }

  lemma ExpandLine(s: int, t: int, x: int)
    ensures (s * x + t) * (s * x + t) == (s * s) * (x * x) + 2 * s * t * x + t * t
  {
  }

  lemma Vieta(a: int, b: int, c: int)
    ensures a * a * a == (a + b + c) * (a * a) - (a * b + a * c + b * c) * a + a * b * c
  {
  }

  lemma SlopeTimes(s: int, t: int, e: int, a: int)
    ensures (-2 * s * t - e) * a == -(2 * s * t * a) - e * a
  {
  }

  /** At a crossing of the line with the curve's cubic, Miss is the linear part. */
  lemma MissIsLinear(s: int, t: int, a: int, b: int, c: int)
    requires s * s == a + b + c
    ensures Miss(s, t, a) == Slope(s, t, a, b, c) * a + Offset(s, t, a, b, c)
  {
    ExpandLine(s, t, a);
    Vieta(a, b, c);
    SlopeTimes(s, t, a * b + a * c + b * c, a);
  }

  lemma Symmetric(s: int, t: int, a: int, b: int, c: int)
    ensures Slope(s, t, a, b, c) == Slope(s, t, b, a, c) == Slope(s, t, c, a, b)
    ensures Offset(s, t, a, b, c) == Offset(s, t, b, a, c) == Offset(s, t, c, a, b)
  {
  }

  lemma Interpolate(k: int, m: int, a: int, b: int, c: int)
    ensures (k * c + m) * (b - a) == (k * a + m) * (b - c) + (k * b + m) * (c - a)
  {
  }

  /** The third crossing of a chord: Miss there is a combination of Miss at the two ends. */
  lemma ChordIdentity(s: int, t: int, a: int, b: int, c: int)
    requires c == s * s - a - b
    ensures Miss(s, t, c) * (b - a) == Miss(s, t, a) * (b - c) + Miss(s, t, b) * (c - a)
  {
    MissIsLinear(s, t, a, b, c);
    MissIsLinear(s, t, b, a, c);
    MissIsLinear(s, t, c, a, b);
    Symmetric(s, t, a, b, c);
    Interpolate(Slope(s, t, a, b, c), Offset(s, t, a, b, c), a, b, c);
  }

  /** The second crossing of a tangent at a, with y the height of the line at a. */
  lemma TangentIdentity(s: int, t: int, a: int, y: int, c: int)
    requires c == s * s - 2 * a && y == s * a + t
    ensures Miss(s, t, c) == Miss(s, t, a) + (3 * a * a - 2 * s * y) * (c - a)
  {
    MissIsLinear(s, t, a, a, c);
    MissIsLinear(s, t, c, a, a);
    Symmetric(s, t, a, a, c);
    TangentSlope(s, t, a, y, c);
    var k := 3 * a * a - 2 * s * y;
    assert k * c - k * a == k * (c - a);
  }

  lemma TangentSlope(s: int, t: int, a: int, y: int, c: int)
    requires c == s * s - 2 * a && y == s * a + t
    ensures Slope(s, t, a, a, c) == 3 * a * a - 2 * s * y
  {
  }

  lemma CubeCong(x: int, x': int, p: int)
    requires p > 0 && Cong(x, x', p)
    ensures Cong(x * x * x, x' * x' * x', p)
  {
    CongMul(x, x', x, x', p);
    CongMul(x * x, x' * x', x, x', p);
  }

  lemma MissCong(s: int, t: int, x: int, x': int, p: int)
    requires p > 0 && Cong(x, x', p)
    ensures Cong(Miss(s, t, x), Miss(s, t, x'), p)
  {
    CubeCong(x, x', p);
    CongAdd(x * x * x, x' * x' * x', 7, 7, p);
    CongMul(s, s, x, x', p);
    CongAdd(s * x, s * x', t, t, p);
    CongMul(s * x + t, s * x' + t, s * x + t, s * x' + t, p);
    CongAdd(x * x * x + 7, x' * x' * x' + 7, (s * x + t) * (s * x + t), (s * x' + t) * (s * x' + t), p);
  }

  /** A line through a curve point misses nothing there. */
  lemma MissZero(s: int, t: int, x: int, y: int, p: int)
    requires p > 0 && Cong(s * x + t, y, p) && Cong(y * y, x * x * x + 7, p)
    ensures Miss(s, t, x) % p == 0
  {
    var l := s * x + t;
    CongMul(l, y, l, y, p);
    CongZeroDiff(x * x * x + 7, l * l, p);
  }

  /** Where a line misses nothing, its height is the ordinate of a curve point. */
  lemma MissZeroIsOnCurve(s: int, t: int, x: int, y: int, p: int)
    requires p > 0 && Cong(s * x + t, -y, p) && Miss(s, t, x) % p == 0
    ensures Cong(y * y, x * x * x + 7, p)
  {
    var l := s * x + t;
    CongMul(l, -y, l, -y, p);
    assert -y * -y == y * y;
    CongZeroDiff(x * x * x + 7, l * l, p);
  }
}
