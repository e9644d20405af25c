/** The EVM signature check of the wallet module, byte level, and the secp256k1 constants. */
module WalletSignature {
  import opened Wrappers
  import opened ModArith
  import opened Euclid
  import opened Primes
  import opened SquareRoots
  import opened Curve
  import opened Scalars
  import opened Recovery
  import opened Bytes

  const SECP256K1: CurveParams := CurveParams(
    0xfffffffffffffffffffffffffffffffffffffffffffffffffffffffefffffc2f,
    0xfffffffffffffffffffffffffffffffebaaedce6af48a03bbfd25e8cd0364141,
    Point(0x79be667ef9dcbbac55a06295ce870b07029bfcdb2dce28d959f2815b16f81798,
          0x483ada7726a3c4655da4fbfc0e1108a8fd17b448a68554199c47d08ffb10d4b8))

  /** The constants of the code meet every requirement that is not a hypothesis. */
  lemma ConstantsAreSound()
    ensures PlainParams(SECP256K1)
    ensures PointOnCurve(SECP256K1.g, SECP256K1.p)
    ensures SECP256K1.n < SECP256K1.p < Power256(32)
  {
    Power256Add(1, 1);
    Power256Add(2, 2);
    Power256Add(4, 4);
    Power256Add(8, 8);
    Power256Add(16, 16);
    assert Power256(1) == 256 * Power256(0);
  }

  // ----- Any recovered key satisfies the recovery equation

  /** HYPOTHESIS: the curve has no points outside the group of order n. */
  ghost predicate NoCofactor(p: int, n: int)
    requires OddPrime(p) && IsPrime(n)
  {
    forall a: Point {:trigger HasOrder(p, n, a)} | PointOnCurve(a, p) :: HasOrder(p, n, a)
  }

  lemma NoPointOfOrderTwo(p: int, n: int, a: Point)
    requires OddPrime(p) && Associative(p) && IsPrime(n) && n > 2 && NoCofactor(p, n) && PointOnCurve(a, p)
    ensures HasOrder(p, n, a) && a.y != 0
  {
    assert HasOrder(p, n, a);
    SmallResidue(1, n);
    TimesOne(p, Some(a));
    MultipleNotSelfOpposite(p, n, a, 1);
  }

  /** The point recovery works with is on the curve whenever some curve point has its abscissa. */
  lemma PickedPointOnCurve(x: int, y: int, parity: int, p: int, n: int)
    requires OddPrime(p) && p % 4 == 3 && Associative(p) && IsPrime(n) && n > 2 && NoCofactor(p, n)
    requires 0 <= x < p && IsRoot(y, CurveRight(x), p)
    ensures PointOnCurve(Point(x, PickOrdinate(x, parity, p)), p)
  {
    var alpha := CurveRight(x) % p;
    var beta := RootCandidate(alpha, p);
    assert 0 <= beta < p;
    PickedOrdinateIffAbscissa(x, beta % 2, p);
    assert PickOrdinate(x, beta % 2, p) == beta;
    assert PointOnCurve(Point(x, beta), p);
    NoPointOfOrderTwo(p, n, Point(x, beta));
    PickedOrdinateIffAbscissa(x, parity, p);
  }

  /**
    * Whatever key Q recovery returns for an abscissa of the curve, r*Q + e*G is s*R for a curve
    * point R with the claimed abscissa and parity: Q is a key that verifies the signature.
    */
  lemma RecoveredKeyVerifies(c: CurveParams, e: int, r: int, s: int, recovery: nat, y: int) returns (R: Point)
    requires GroupHypotheses(c) && NoCofactor(c.p, c.n) && r >= 0
    requires IsRoot(y, CurveRight(r + (recovery / 2) * c.n), c.p)
    requires RecoverOutcome(c, e, r, s, recovery).Returned? && RecoverOutcome(c, e, r, s, recovery).value.Some?
    ensures PointOnCurve(R, c.p) && R.x == r + (recovery / 2) * c.n
    ensures var Q := RecoverOutcome(c, e, r, s, recovery).value;
            && OnCurve(Q, c.p)
            && Plus(c.p, Times(c.p, r % c.n, Q), Multiple(c, e % c.n)) == Times(c.p, s % c.n, Some(R))
  {
    var x := r + (recovery / 2) * c.n;
    assert x >= 0 by { MulMonotone(c.n, 0, recovery / 2); }
    PickedPointOnCurve(x, y, recovery % 2, c.p, c.n);
    R := Point(x, PickOrdinate(x, recovery % 2, c.p));
    OrderCheckNeverFires(c.p, c.n, R);
    MultiplyIsTimes(c.p, c.n, R, s);
    MultiplyIsTimes(c.p, c.n, c.g, e);
    QuotientKeyVerifies(c, Times(c.p, s % c.n, Some(R)), Multiple(c, e % c.n).value, r);
  }

  /** Dividing sR - eG by r and multiplying back. */
  lemma QuotientKeyVerifies(c: CurveParams, sR: MaybePoint, eG: Point, r: int)
    requires GroupHypotheses(c) && NoCofactor(c.p, c.n) && OnCurve(sR, c.p) && PointOnCurve(eG, c.p)
    ensures PointOnCurve(Negate(eG, c.p), c.p)
    ensures var candidate := Plus(c.p, sR, Some(Negate(eG, c.p)));
            && AddOutcome(c.p, sR, Some(Negate(eG, c.p))) == Returned(candidate)
            && (candidate.Some? && Inverse(r, c.n).Some? ==>
                  var Q := Times(c.p, Inverse(r, c.n).value % c.n, candidate);
                  && MultiplyOutcome(c.p, c.n, candidate.value, Inverse(r, c.n).value) == Returned(Q)
                  && Plus(c.p, Times(c.p, r % c.n, Q), Some(eG)) == sR)
  {
    MovesAcross(c.p, sR, eG);
    AddCloses(c.p, sR, Some(Negate(eG, c.p)));
    var candidate := Plus(c.p, sR, Some(Negate(eG, c.p)));
    if candidate.Some? && Inverse(r, c.n).Some? {
      var rInv := Inverse(r, c.n).value;
      MultiplyIsTimes(c.p, c.n, candidate.value, rInv);
      UndoesDivision(c, candidate.value, r, rInv);
    }
  }

  /** Multiplying by r undoes the multiplication by its inverse. */
  lemma UndoesDivision(c: CurveParams, a: Point, r: int, rInv: int)
    requires GroupHypotheses(c) && NoCofactor(c.p, c.n) && PointOnCurve(a, c.p)
    requires IsInverse(r, c.n, rInv)
    ensures Times(c.p, r % c.n, Times(c.p, rInv % c.n, Some(a))) == Some(a)
  {
    assert HasOrder(c.p, c.n, a);
    SmallResidue(rInv, c.n);
    var t := r % c.n;
    TimesTimes(c.p, t, rInv, Some(a));
    CongResidue(r, c.n);
    CongMul(t, r, rInv, rInv, c.n);
    TimesCong(c.p, c.n, a, t * rInv, 1);
    TimesOne(c.p, Some(a));
  }

  lemma MovesAcross(p: int, a: MaybePoint, b: Point)
    requires OddPrime(p) && Associative(p) && OnCurve(a, p) && PointOnCurve(b, p)
    ensures PointOnCurve(Negate(b, p), p)
    ensures Plus(p, Plus(p, a, Some(Negate(b, p))), Some(b)) == a
  {
    NegateCancels(p, b);
    PlusAssoc(p, a, Some(Negate(b, p)), Some(b));
    PlusCommutes(p, Some(Negate(b, p)), Some(b));
    PlusInfinity(p, a);
  }

  // ----- An abscissa of no curve point, which recovery accepts

  /**
    * A number z and a multiple of p that show -((n + 1)^3 + 7) to be a square: then (n + 1)^3 + 7,
    * for the abscissa that r = 1 with recovery bits 2 or 3 claims, is none.
    */
  predicate ShowsMissing(c: CurveParams, z: int, q: int) {
    && 0 < c.n + 1 < c.p && CurveRight(c.n + 1) % c.p != 0
    && z * z == -CurveRight(c.n + 1) + q * c.p
  }

  const OPPOSITE_ROOT := 0x6d183de4400510e40d4f32da2e72168a5eaa3ee28bf6250923603284adfe55af
  const QUOTIENT_HIGH := 0xfffffffffffffffffffffffffffffffc300c96b40dd9e0b33f771ba770a2c79c
  const QUOTIENT_LOW := 0x06b2fd808d9ab6ab94f51eebbbe5761f25544b396475f2cec4c7d3c99f801250
  const TWO_TO_256 := 0x1_0000_0000_0000_0000_0000_0000_0000_0000_0000_0000_0000_0000_0000_0000_0000_0000

  /** There are such numbers for the constants of the code. */
  lemma CurveMisses()
    ensures ShowsMissing(SECP256K1, OPPOSITE_ROOT, QUOTIENT_HIGH * TWO_TO_256 + QUOTIENT_LOW)
  {
  }

  /** No number is a square root of x^3 + 7: no curve point has abscissa x. */
  ghost predicate NoAbscissa(x: int, p: int)
    requires p > 0
  {
    forall y {:trigger IsRoot(y, CurveRight(x), p)} :: !IsRoot(y, CurveRight(x), p)
  }

  /** They show that no curve point has the abscissa n + 1. */
  lemma NoPointAtNPlusOne(c: CurveParams, z: int, q: int)
    requires PlainParams(c) && IsPrime(c.p) && ShowsMissing(c, z, q)
    ensures NoAbscissa(c.n + 1, c.p)
  {
    var a := CurveRight(c.n + 1);
    CongFromMultiple(z * z, -a, q, c.p);
    forall y
      ensures !IsRoot(y, a, c.p)
    {
      OppositeOfSquareIsNoSquare(z, y, a, c.p);
    }
  }

  /** Multiplying by one gives the point itself, on the curve or not. */
  lemma MultiplyByOne(c: CurveParams, pt: Point)
    requires PlainParams(c) && OddPrime(c.p) && 0 <= pt.y < c.p
    ensures MultiplyOutcome(c.p, c.n, pt, 1) == Returned(Some(pt))
  {
    SmallResidue(1, c.n);
    if pt.y != 0 {
      DoubleNonzero(pt.y, c.p);
      NonzeroInvertible(2 * pt.y, c.p);
    }
    assert NextAddend(c.p, Some(pt)).Returned?;
    assert Ladder(c.p, 0, Some(pt), NextAddend(c.p, Some(pt)).value) == Returned(Some(pt));
  }

  /** The ordinate picked for an abscissa that is not a root of x^3 + 7 lies strictly between 0 and p. */
  lemma PickedOrdinateRange(x: int, parity: int, p: int)
    requires OddPrime(p) && CurveRight(x) % p != 0
    ensures 0 < PickOrdinate(x, parity, p) < p
  {
    var alpha := CurveRight(x) % p;
    SmallResidue(alpha, p);
    PowNonzero(alpha, (p + 1) / 4, p);
  }

  /** Points with different abscissas are added without a throw, on the curve or not. */
  lemma ChordReturns(p: int, a: Point, b: Point)
    requires OddPrime(p) && 0 <= a.x < p && 0 <= b.x < p && a.x != b.x
    ensures var sum := AddOutcome(p, Some(a), Some(b)); sum.Returned? && sum.value.Some? && 0 <= sum.value.value.y < p
  {
    DifferenceNonzero(a.x, b.x, p);
    NonzeroInvertible(b.x - a.x, p);
  }

  lemma InverseOfOne(n: int)
    requires n > 1
    ensures InvertOutcome(1, n) == Returned(1)
  {
    SmallResidue(1, n);
    assert IsInverse(1, n, 1);
    InverseIs(1, n, 1);
  }

  /** A reduced point off the curve minus a curve point: the chord is drawn all the same. */
  lemma OffCurveMinus(c: CurveParams, R: Point, b: Point)
    requires GroupHypotheses(c) && PointOnCurve(b, c.p) && 0 <= R.x < c.p && NoAbscissa(R.x, c.p)
    ensures var sum := AddOutcome(c.p, Some(R), Some(Negate(b, c.p)));
            && sum.Returned? && sum.value.Some?
            && MultiplyOutcome(c.p, c.n, sum.value.value, 1) == sum
  {
    assert !IsRoot(b.y, CurveRight(R.x), c.p);
    NegateCancels(c.p, b);
    ChordReturns(c.p, R, Negate(b, c.p));
    MultiplyByOne(c, AddOutcome(c.p, Some(R), Some(Negate(b, c.p))).value.value);
  }

  /**
    * Recovery does not look for a curve point: for r = s = 1, recovery bits 2 or 3 and every hash
    * that is not zero modulo n, it returns a key although no curve point has the claimed abscissa.
    */
  lemma RecoversOffTheCurve(c: CurveParams, z: int, q: int, e: int, recovery: nat)
    requires GroupHypotheses(c) && ShowsMissing(c, z, q)
    requires e % c.n != 0 && (recovery == 2 || recovery == 3)
    ensures NoAbscissa(1 + (recovery / 2) * c.n, c.p)
    ensures var key := RecoverOutcome(c, e, 1, 1, recovery); key.Returned? && key.value.Some?
  {
    var R := Point(c.n + 1, PickOrdinate(c.n + 1, recovery % 2, c.p));
    assert recovery / 2 == 1;
    NoPointAtNPlusOne(c, z, q);
    PickedOrdinateRange(c.n + 1, recovery % 2, c.p);
    InverseOfOne(c.n);
    MultiplyByOne(c, R);
    MultiplyGenerator(c, e);
    var eG := Multiple(c, e % c.n);
    OffCurveMinus(c, R, eG.value);
    RecoverFrom(c, e, 1, 1, recovery, R, 1, Some(R), eG);
  }

  // ----- The byte-level check

  /** The 65 bytes the signer emits: r, s and 27 plus the recovery bits. */
  function EncodeSignature(sig: Signature): (bytes: seq<Byte>)
    requires 0 <= sig.r && 0 <= sig.s && sig.recovery <= 3
    ensures |bytes| == 65
  {
    ToBytes(sig.r, 32) + ToBytes(sig.s, 32) + [27 + sig.recovery]
  }

  /** The recovery value of the last byte: Ethereum's offset of 27 is optional. */
  function RecoveryByte(b: Byte): Byte {
    if b >= 27 then b - 27 else b
  }

  /** `verifyEvmSignatureNative`; `matches` compares a public key's address with the wallet's. */
  ghost function Accepts(c: CurveParams, signature: seq<Byte>, hash: seq<Byte>, matches: Point -> bool): bool
    requires PlainParams(c)
  {
    && |signature| == 65
    && var r, s, recovery := BigEndian(signature[..32]), BigEndian(signature[32..64]), RecoveryByte(signature[64]);
    && recovery <= 3 && r > 0 && s > 0
    && var key := RecoverOutcome(c, BigEndian(hash), r, s, recovery);
    && key.Returned? && key.value.Some? && matches(key.value.value)
  }

  method VerifyNative(c: CurveParams, signature: seq<Byte>, hash: seq<Byte>, matches: Point -> bool) returns (ok: bool)
    requires PlainParams(c)
    ensures ok == Accepts(c, signature, hash, matches)
  {
    if |signature| != 65 {
      return false;
    }
    var r := BigEndian(signature[..32]);
    var s := BigEndian(signature[32..64]);
    var recovery := signature[64];
    if recovery >= 27 {
      recovery := recovery - 27;
    }
    if recovery > 3 || r <= 0 || s <= 0 {
      return false;
    }
    var key := Recover(c, BigEndian(hash), r, s, recovery);
    ok := key.Returned? && key.value.Some? && matches(key.value.value);
  }

  lemma DecodesSignature(sig: Signature)
    requires 0 <= sig.r < Power256(32) && 0 <= sig.s < Power256(32) && sig.recovery <= 3
    ensures var b := EncodeSignature(sig);
            && BigEndian(b[..32]) == sig.r && BigEndian(b[32..64]) == sig.s && RecoveryByte(b[64]) == sig.recovery
  {
    var b := EncodeSignature(sig);
    assert b[..32] == ToBytes(sig.r, 32);
    assert b[32..64] == ToBytes(sig.s, 32);
    BytesRoundTrip(sig.r, 32);
    BytesRoundTrip(sig.s, 32);
  }

  /**
    * A wallet's own signature, as emitted, is accepted for an address exactly when the address
    * is that of its public key, unless the hash is zero modulo the order: then never.
    */
  lemma OwnSignatureAccepted(c: CurveParams, d: int, hash: seq<Byte>, nonce: int, matches: Point -> bool)
    requires GroupHypotheses(c) && c.n <= Power256(32) && 0 < d < c.n
    requires SignOutcome(c, d, BigEndian(hash), nonce, 32).Returned?
    ensures var sig := SignOutcome(c, d, BigEndian(hash), nonce, 32).value;
            && 0 < sig.r < c.n && 0 < sig.s <= c.n / 2 && sig.recovery <= 3
            && Multiple(c, d).Some?
            && (Accepts(c, EncodeSignature(sig), hash, matches)
                <==> BigEndian(hash) % c.n != 0 && matches(Multiple(c, d).value))
  {
    var z := BigEndian(hash);
    var sig := SignOutcome(c, d, z, nonce, 32).value;
    var k, s0 := SignerSigns(c, d, z, nonce, 32);
    var R := Multiple(c, k).value;
    LowSBits(c.n, sig.r, s0, R.y % 2, R.x >= c.n);
    DecodesSignature(sig);
    RecoverUndoesSigning(c, d, z, k, s0, sig);
  }

  /** The last byte may or may not be offset by 27, and no other last byte is accepted. */
  lemma OffsetIsOptional(c: CurveParams, rs: seq<Byte>, last: Byte, hash: seq<Byte>, matches: Point -> bool)
    requires PlainParams(c) && |rs| == 64
    ensures last <= 3 ==> (Accepts(c, rs + [last], hash, matches) <==> Accepts(c, rs + [27 + last], hash, matches))
    ensures Accepts(c, rs + [last], hash, matches) ==> last <= 3 || 27 <= last <= 30
  {
    SameHalves(rs, last);
    if last <= 3 {
      SameHalves(rs, 27 + last);
    }
  }

  lemma SameHalves(rs: seq<Byte>, last: Byte)
    requires |rs| == 64
    ensures (rs + [last])[..32] == rs[..32] && (rs + [last])[32..64] == rs[32..] && (rs + [last])[64] == last
  {
  }

  // ----- The other signature of the same key

  /** The recovery bits with the parity bit flipped. */
  function FlipParity(recovery: nat): nat {
    if recovery % 2 == 1 then recovery - 1 else recovery + 1
  }

  /** The negation of a point of order n is its (n-1)-fold sum, and has order n too. */
  lemma NegatedHasOrder(p: int, n: int, a: Point)
    requires OddPrime(p) && Associative(p) && HasOrder(p, n, a) && n > 2
    ensures Times(p, n - 1, Some(a)) == Some(Negate(a, p)) && HasOrder(p, n, Negate(a, p))
  {
    TimesOne(p, Some(a));
    TimesNegate(p, n, a, 1);
    NegateCancels(p, a);
    TimesTimes(p, n, n - 1, Some(a));
    MultipleIsZero(n * (n - 1), n - 1, n);
    TimesModulo(p, n, a, n * (n - 1));
  }

  lemma OppositeScalars(j: int, s: int, n: int)
    requires n > 0 && j == (n - s) % n
    ensures Cong(j * (n - 1), s % n, n)
  {
    CongResidue(n - s, n);
    CongFromMultiple(n - s, -s, 1, n);
    CongFromMultiple(n - 1, -1, 1, n);
    CongMul(j, -s, n - 1, -1, n);
    CongResidue(s, n);
  }

  /** Multiplying the negated point by n - s is multiplying the point by s. */
  lemma NegatedMultiple(c: CurveParams, a: Point, s: int)
    requires GroupHypotheses(c) && HasOrder(c.p, c.n, a)
    ensures MultiplyOutcome(c.p, c.n, Negate(a, c.p), c.n - s) == MultiplyOutcome(c.p, c.n, a, s)
  {
    NegatedHasOrder(c.p, c.n, a);
    MultiplyIsTimes(c.p, c.n, a, s);
    MultiplyIsTimes(c.p, c.n, Negate(a, c.p), c.n - s);
    var j := (c.n - s) % c.n;
    TimesTimes(c.p, j, c.n - 1, Some(a));
    OppositeScalars(j, s, c.n);
    TimesCong(c.p, c.n, a, j * (c.n - 1), s % c.n);
  }

  /** Recovery depends on its point and on s only through their product. */
  lemma RecoverySameProduct(c: CurveParams, e: int, r: int, s: int, recovery: nat, s': int, recovery': nat)
    requires PlainParams(c) && recovery / 2 == recovery' / 2
    requires var x := r + (recovery / 2) * c.n;
             MultiplyOutcome(c.p, c.n, Point(x, PickOrdinate(x, recovery' % 2, c.p)), s')
             == MultiplyOutcome(c.p, c.n, Point(x, PickOrdinate(x, recovery % 2, c.p)), s)
    ensures RecoverOutcome(c, e, r, s', recovery') == RecoverOutcome(c, e, r, s, recovery)
  {
    var x := r + (recovery / 2) * c.n;
    OrderCheckNeverFires(c.p, c.n, Point(x, PickOrdinate(x, recovery % 2, c.p)));
    OrderCheckNeverFires(c.p, c.n, Point(x, PickOrdinate(x, recovery' % 2, c.p)));
  }

  /** Of the two ordinates an abscissa has, flipping the parity picks the other. */
  lemma FlippedOrdinate(c: CurveParams, R: Point, parity: nat)
    requires GroupHypotheses(c) && HasOrder(c.p, c.n, R) && parity < 2
    ensures var a := Point(R.x, PickOrdinate(R.x, parity, c.p));
            && (a == R || a == Negate(R, c.p)) && HasOrder(c.p, c.n, a)
            && Point(R.x, PickOrdinate(R.x, 1 - parity, c.p)) == Negate(a, c.p)
  {
    TimesOne(c.p, Some(R));
    SmallResidue(1, c.n);
    MultipleNotSelfOpposite(c.p, c.n, R, 1);
    PickOrdinateFindsPoint(R, c.p);
    NegateCancels(c.p, R);
    NegatedHasOrder(c.p, c.n, R);
    ModIsResidue(-R.y, c.p);
    DivModUnique(-R.y, -1, c.p - R.y, c.p);
  }

  /**
    * The check asks for no low s: for the abscissa of a point of order n, n - s with the parity bit
    * flipped recovers what s recovers, on every hash.
    */
  lemma FlippedRecovers(c: CurveParams, e: int, r: int, s: int, recovery: nat, R: Point)
    requires GroupHypotheses(c) && HasOrder(c.p, c.n, R) && R.x == r + (recovery / 2) * c.n
    ensures RecoverOutcome(c, e, r, c.n - s, FlipParity(recovery)) == RecoverOutcome(c, e, r, s, recovery)
  {
    FlippedOrdinate(c, R, recovery % 2);
    NegatedMultiple(c, Point(R.x, PickOrdinate(R.x, recovery % 2, c.p)), s);
    RecoverySameProduct(c, e, r, s, recovery, c.n - s, FlipParity(recovery));
  }

  lemma MultipleHasOrder(c: CurveParams, k: nat)
    requires GroupHypotheses(c) && Multiple(c, k).Some?
    ensures HasOrder(c.p, c.n, Multiple(c, k).value)
  {
    TimesTimes(c.p, c.n, k, Some(c.g));
    MultipleIsZero(c.n * k, k, c.n);
    TimesModulo(c.p, c.n, c.g, c.n * k);
  }

  predicate KeyMatches(key: Outcome<MaybePoint>, matches: Point -> bool) {
    key.Returned? && key.value.Some? && matches(key.value.value)
  }

  /** The byte-level check of an encoded signature comes down to recovery. */
  lemma AcceptsEncoded(c: CurveParams, sig: Signature, hash: seq<Byte>, matches: Point -> bool,
                       key: Outcome<MaybePoint>)
    requires PlainParams(c) && 0 < sig.r < Power256(32) && 0 < sig.s < Power256(32) && sig.recovery <= 3
    requires key == RecoverOutcome(c, BigEndian(hash), sig.r, sig.s, sig.recovery)
    ensures Accepts(c, EncodeSignature(sig), hash, matches) <==> KeyMatches(key, matches)
  {
    DecodesSignature(sig);
  }

  /** The signer's signature with n - s and the flipped bit. */
  function HighForm(c: CurveParams, sig: Signature): Signature {
    Signature(sig.r, c.n - sig.s, FlipParity(sig.recovery))
  }

  lemma HighRecovers(c: CurveParams, d: int, z: int, k: nat, s0: int, sig: Signature)
    requires GroupHypotheses(c) && SignedWith(c, d, z, k, s0, sig)
    ensures RecoverOutcome(c, z, sig.r, c.n - sig.s, FlipParity(sig.recovery))
            == RecoverOutcome(c, z, sig.r, sig.s, sig.recovery)
  {
    var j := RebuildsPoint(c, d, z, k, s0, sig);
    var x := sig.r + (sig.recovery / 2) * c.n;
    var R := Point(x, PickOrdinate(x, sig.recovery % 2, c.p));
    assert Multiple(c, j) == Some(R);
    MultipleHasOrder(c, j);
    FlippedRecovers(c, z, sig.r, sig.s, sig.recovery, R);
  }

  lemma HighAccepted(c: CurveParams, sig: Signature, high: Signature, hash: seq<Byte>, matches: Point -> bool)
    requires PlainParams(c) && 0 < sig.r < Power256(32) && 0 < sig.s < Power256(32) && sig.recovery <= 3
    requires high.r == sig.r && 0 < high.s < Power256(32) && high.recovery <= 3
    requires RecoverOutcome(c, BigEndian(hash), high.r, high.s, high.recovery)
             == RecoverOutcome(c, BigEndian(hash), sig.r, sig.s, sig.recovery)
    ensures Accepts(c, EncodeSignature(high), hash, matches) == Accepts(c, EncodeSignature(sig), hash, matches)
  {
    var key := RecoverOutcome(c, BigEndian(hash), sig.r, sig.s, sig.recovery);
    AcceptsEncoded(c, sig, hash, matches, key);
    AcceptsEncoded(c, high, hash, matches, key);
  }

  lemma OddOrder(n: int)
    requires IsPrime(n) && n > 2
    ensures n % 2 == 1
  {
  }

  lemma HighRange(n: int, s: int, recovery: nat)
    requires IsPrime(n) && n > 2 && 0 < s <= n / 2 && recovery <= 3
    ensures n / 2 < n - s < n && FlipParity(recovery) <= 3
  {
    OddOrder(n);
  }

  /** The high form of a signature made with some nonce is accepted for the same addresses. */
  lemma HighOfSigned(c: CurveParams, d: int, hash: seq<Byte>, k: nat, s0: int, sig: Signature, matches: Point -> bool)
    requires GroupHypotheses(c) && c.n <= Power256(32) && SignedWith(c, d, BigEndian(hash), k, s0, sig)
    requires 0 < sig.r < c.n && 0 < sig.s <= c.n / 2 && sig.recovery <= 3
    ensures c.n / 2 < HighForm(c, sig).s < c.n && HighForm(c, sig).recovery <= 3
    ensures Accepts(c, EncodeSignature(HighForm(c, sig)), hash, matches)
            == Accepts(c, EncodeSignature(sig), hash, matches)
  {
    HighRange(c.n, sig.s, sig.recovery);
    HighRecovers(c, d, BigEndian(hash), k, s0, sig);
    HighAccepted(c, sig, HighForm(c, sig), hash, matches);
  }

  /** So the signer's low s is a choice: the high s with the flipped bit is accepted for the same addresses. */
  lemma HighSignatureAccepted(c: CurveParams, d: int, hash: seq<Byte>, nonce: int, matches: Point -> bool)
    requires GroupHypotheses(c) && c.n <= Power256(32) && 0 < d < c.n
    requires SignOutcome(c, d, BigEndian(hash), nonce, 32).Returned?
    ensures var sig := SignOutcome(c, d, BigEndian(hash), nonce, 32).value;
            var high := HighForm(c, sig);
            && 0 < sig.s <= c.n / 2 < high.s < c.n && 0 < sig.r < c.n && sig.recovery <= 3 && high.recovery <= 3
            && Accepts(c, EncodeSignature(high), hash, matches) == Accepts(c, EncodeSignature(sig), hash, matches)
  {
    OwnSignatureAccepted(c, d, hash, nonce, matches);
    var k, s0 := SignerSigns(c, d, BigEndian(hash), nonce, 32);
    HighOfSigned(c, d, hash, k, s0, SignOutcome(c, d, BigEndian(hash), nonce, 32).value, matches);
  }
}
