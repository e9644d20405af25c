/** Exactly what recovery returns, for every input whose abscissa is that of a curve point. */
module RecoveryExact {
  import opened Wrappers
  import opened ModArith
  import opened Euclid
  import opened Primes
  import opened Curve
  import opened Scalars
  import opened Recovery
  import opened WalletSignature
  import opened Bytes

  /** The verification equation of section 4.1.4 of SEC 1: r*Q + e*G = s*R. */
  ghost predicate Verifies(c: CurveParams, e: int, r: int, s: int, R: Point, Q: MaybePoint)
    requires GroupHypotheses(c) && PointOnCurve(R, c.p) && OnCurve(Q, c.p)
  {
    Plus(c.p, Times(c.p, r % c.n, Q), Multiple(c, e % c.n)) == Times(c.p, s % c.n, Some(R))
  }

  lemma ZeroHasNoInverse(r: int, n: int)
    requires n > 1 && r % n == 0
    ensures InvertOutcome(r, n) == Threw
  {
    forall y
      ensures !IsInverse(r, n, y)
    {
      CongMul(r, 0, y, y, n);
      SmallResidue(1, n);
    }
  }

  /** The claimed abscissa and parity are those of R, so recovery works with R. */
  ghost predicate Claims(c: CurveParams, r: int, recovery: nat, R: Point)
    requires GroupHypotheses(c)
  {
    PointOnCurve(R, c.p) && R.x == r + (recovery / 2) * c.n && R.y % 2 == recovery % 2
  }

  lemma ClaimedPoint(c: CurveParams, r: int, recovery: nat, R: Point)
    requires GroupHypotheses(c) && NoCofactor(c.p, c.n) && Claims(c, r, recovery, R)
    ensures HasOrder(c.p, c.n, R)
    ensures R == Point(r + (recovery / 2) * c.n, PickOrdinate(r + (recovery / 2) * c.n, recovery % 2, c.p))
  {
    NoPointOfOrderTwo(c.p, c.n, R);
    PickOrdinateFindsPoint(R, c.p);
  }

  lemma ThrowsAtZero(c: CurveParams, e: int, r: int, s: int, recovery: nat, R: Point)
    requires GroupHypotheses(c) && NoCofactor(c.p, c.n) && Claims(c, r, recovery, R) && r % c.n == 0
    ensures RecoverOutcome(c, e, r, s, recovery) == Threw
  {
    ClaimedPoint(c, r, recovery, R);
    ZeroHasNoInverse(r, c.n);
    OrderCheckNeverFires(c.p, c.n, R);
  }

  /** Two points differ by infinity exactly when they are equal. */
  lemma DifferenceVanishes(p: int, a: Point, b: Point)
    requires OddPrime(p) && PointOnCurve(a, p) && PointOnCurve(b, p)
    ensures PointOnCurve(Negate(b, p), p)
    ensures Plus(p, Some(a), Some(Negate(b, p))) == None <==> a == b
  {
    NegateCancels(p, a);
    NegateCancels(p, b);
    OppositeIsUnique(p, a, Some(Negate(b, p)));
  }

  /** What is added to b to give a is their difference. */
  lemma SolvesDifference(p: int, x: MaybePoint, a: MaybePoint, b: Point)
    requires OddPrime(p) && Associative(p) && OnCurve(x, p) && OnCurve(a, p) && PointOnCurve(b, p)
    requires Plus(p, x, Some(b)) == a
    ensures PointOnCurve(Negate(b, p), p) && x == Plus(p, a, Some(Negate(b, p)))
  {
    NegateCancels(p, b);
    PlusAssoc(p, x, Some(b), Some(Negate(b, p)));
    PlusInfinity(p, x);
  }

  /** Dividing undoes the multiplication. */
  lemma DividesBack(c: CurveParams, a: Point, r: int, rInv: int)
    requires GroupHypotheses(c) && NoCofactor(c.p, c.n) && PointOnCurve(a, c.p) && IsInverse(r, c.n, rInv)
    ensures Times(c.p, rInv % c.n, Times(c.p, r % c.n, Some(a))) == Some(a)
  {
    UndoesDivision(c, a, r, rInv);
    TimesTimes(c.p, r % c.n, rInv % c.n, Some(a));
    TimesTimes(c.p, rInv % c.n, r % c.n, Some(a));
    assert (r % c.n) * (rInv % c.n) == (rInv % c.n) * (r % c.n);
  }

  /** Only one point verifies. */
  lemma KeyIsUnique(c: CurveParams, e: int, r: int, s: int, R: Point, Q: Point, Q': MaybePoint)
    requires GroupHypotheses(c) && NoCofactor(c.p, c.n) && r % c.n != 0 && e % c.n != 0
    requires PointOnCurve(R, c.p) && PointOnCurve(Q, c.p) && OnCurve(Q', c.p)
    requires Verifies(c, e, r, s, R, Some(Q)) && Verifies(c, e, r, s, R, Q')
    ensures Q' == Some(Q)
  {
    var sR := Times(c.p, s % c.n, Some(R));
    ReducedMultiple(c, e);
    var eG := Multiple(c, e % c.n).value;
    SolvesDifference(c.p, Times(c.p, r % c.n, Some(Q)), sR, eG);
    SolvesDifference(c.p, Times(c.p, r % c.n, Q'), sR, eG);
    var rInv := InverseOfNonzero(r, c.n);
    assert IsInverse(r, c.n, rInv);
    DividesBack(c, Q, r, rInv);
    if Q'.Some? {
      DividesBack(c, Q'.value, r, rInv);
    } else {
      TimesInfinity(c.p, r % c.n);
      TimesInfinity(c.p, rInv % c.n);
    }
  }

  /** The key is the divided difference, which is there unless the two multiples are equal. */
  lemma KeyExists(c: CurveParams, e: int, r: int, s: int, R: Point, rInv: int, sR: Point, eG: Point)
    requires GroupHypotheses(c) && NoCofactor(c.p, c.n) && PointOnCurve(R, c.p)
    requires IsInverse(r, c.n, rInv) && Inverse(r, c.n) == Some(rInv)
    requires PointOnCurve(sR, c.p) && PointOnCurve(eG, c.p)
    requires Times(c.p, s % c.n, Some(R)) == Some(sR) && Multiple(c, e % c.n) == Some(eG)
    ensures var candidate := AddOutcome(c.p, Some(sR), Some(Negate(eG, c.p)));
            && candidate.Returned? && (candidate.value == None <==> sR == eG)
            && (candidate.value.Some? ==>
                  var key := MultiplyOutcome(c.p, c.n, candidate.value.value, rInv);
                  key.Returned? && key.value.Some? && OnCurve(key.value, c.p) && Verifies(c, e, r, s, R, key.value))
  {
    DifferenceVanishes(c.p, sR, eG);
    QuotientKeyVerifies(c, Some(sR), eG, r);
    var candidate := Plus(c.p, Some(sR), Some(Negate(eG, c.p)));
    if candidate.Some? {
      UndoesDivision(c, candidate.value, r, rInv);
      TimesInfinity(c.p, r % c.n);
    }
  }

  /** Recovery from a non-zero r, step by step. */
  lemma RecoverNonzero(c: CurveParams, e: int, r: int, s: int, recovery: nat, R: Point)
    requires GroupHypotheses(c) && NoCofactor(c.p, c.n) && Claims(c, r, recovery, R) && r % c.n != 0
    ensures var o := RecoverOutcome(c, e, r, s, recovery);
            var sR, eG := Times(c.p, s % c.n, Some(R)), Multiple(c, e % c.n);
            && o.Returned?
            && (o.value == None <==> s % c.n == 0 || e % c.n == 0 || sR == eG)
            && (o.value.Some? ==> OnCurve(o.value, c.p) && Verifies(c, e, r, s, R, o.value))
  {
    ClaimedPoint(c, r, recovery, R);
    var rInv := InverseOfNonzero(r, c.n);
    assert IsInverse(r, c.n, rInv);
    var sR, eG := Times(c.p, s % c.n, Some(R)), Multiple(c, e % c.n);
    MultiplyIsTimes(c.p, c.n, R, s);
    MultiplyGenerator(c, e);
    TimesVanishes(c.p, c.n, R, s % c.n);
    SmallResidue(s % c.n, c.n);
    RecoverFrom(c, e, r, s, recovery, R, rInv, sR, eG);
    if sR.Some? && eG.Some? {
      KeyExists(c, e, r, s, R, rInv, sR.value, eG.value);
    }
  }

  /**
    * Recovery, exactly: it throws for an r that is 0 modulo N, is undefined when s*R or e*G is
    * infinity or the two are equal, and otherwise returns the one point that verifies the signature.
    */
  lemma RecoverIff(c: CurveParams, e: int, r: int, s: int, recovery: nat, R: Point, Q: MaybePoint)
    requires GroupHypotheses(c) && NoCofactor(c.p, c.n) && OnCurve(Q, c.p)
    requires PointOnCurve(R, c.p) && R.x == r + (recovery / 2) * c.n && R.y % 2 == recovery % 2
    ensures var o := RecoverOutcome(c, e, r, s, recovery);
            && (o.Threw? <==> r % c.n == 0)
            && (o == Returned(None) <==>
                  && r % c.n != 0
                  && (s % c.n == 0 || e % c.n == 0 || Times(c.p, s % c.n, Some(R)) == Multiple(c, e % c.n)))
            && (o.Returned? && o.value.Some? ==> (o.value == Q <==> Verifies(c, e, r, s, R, Q)))
  {
    if r % c.n == 0 {
      ThrowsAtZero(c, e, r, s, recovery, R);
    } else {
      RecoverNonzero(c, e, r, s, recovery, R);
      var o := RecoverOutcome(c, e, r, s, recovery);
      if o.value.Some? && Verifies(c, e, r, s, R, Q) {
        KeyIsUnique(c, e, r, s, R, o.value.value, Q);
      }
    }
  }

  // ----- What the byte check accepts

  /** Some public key with an address that matches verifies the signature. */
  ghost predicate SomeKeyVerifies(c: CurveParams, e: int, r: int, s: int, R: Point, matches: Point -> bool)
    requires GroupHypotheses(c) && PointOnCurve(R, c.p)
  {
    exists Q: Point :: PointOnCurve(Q, c.p) && Verifies(c, e, r, s, R, Some(Q)) && matches(Q)
  }

  /** No point verifies when the multiples are equal, because r*Q is then not infinity. */
  lemma EqualMultiplesVerifyNothing(c: CurveParams, e: int, r: int, s: int, R: Point, Q: Point)
    requires GroupHypotheses(c) && NoCofactor(c.p, c.n) && PointOnCurve(R, c.p) && PointOnCurve(Q, c.p)
    requires r % c.n != 0 && e % c.n != 0 && Times(c.p, s % c.n, Some(R)) == Multiple(c, e % c.n)
    ensures !Verifies(c, e, r, s, R, Some(Q))
  {
    ReducedMultiple(c, e);
    var eG := Multiple(c, e % c.n).value;
    assert HasOrder(c.p, c.n, Q);
    TimesVanishes(c.p, c.n, Q, r % c.n);
    SmallResidue(r % c.n, c.n);
    if Verifies(c, e, r, s, R, Some(Q)) {
      SolvesDifference(c.p, Times(c.p, r % c.n, Some(Q)), Some(eG), eG);
      NegateCancels(c.p, eG);
    }
  }

  /** Recovery finds a matching key exactly when one verifies. */
  lemma RecoversMatching(c: CurveParams, e: int, r: int, s: int, recovery: nat, R: Point, matches: Point -> bool)
    requires GroupHypotheses(c) && NoCofactor(c.p, c.n) && Claims(c, r, recovery, R)
    ensures var key := RecoverOutcome(c, e, r, s, recovery);
            key.Returned? && key.value.Some? && matches(key.value.value)
            <==> r % c.n != 0 && s % c.n != 0 && e % c.n != 0 && SomeKeyVerifies(c, e, r, s, R, matches)
  {
    RecoverIff(c, e, r, s, recovery, R, None);
    if r % c.n != 0 && s % c.n != 0 && e % c.n != 0 {
      RecoverNonzero(c, e, r, s, recovery, R);
      var key := RecoverOutcome(c, e, r, s, recovery).value;
      if SomeKeyVerifies(c, e, r, s, R, matches) {
        var Q :| PointOnCurve(Q, c.p) && Verifies(c, e, r, s, R, Some(Q)) && matches(Q);
        if key.Some? {
          KeyIsUnique(c, e, r, s, R, key.value, Some(Q));
        } else {
          EqualMultiplesVerifyNothing(c, e, r, s, R, Q);
        }
      }
    }
  }

  lemma ZeroReduces(a: int, n: int)
    requires n > 0
    ensures a == 0 ==> a % n == 0
  {
  }

  /** The byte check in terms of the numbers it reads. */
  lemma AcceptsParts(c: CurveParams, signature: seq<Byte>, hash: seq<Byte>, matches: Point -> bool,
                     e: int, r: int, s: int, bits: nat)
    requires PlainParams(c) && |signature| == 65 && bits <= 3 && bits == RecoveryByte(signature[64])
    requires e == BigEndian(hash) && r == BigEndian(signature[..32]) && s == BigEndian(signature[32..64])
    ensures r >= 0 && s >= 0
    ensures var key := RecoverOutcome(c, e, r, s, bits);
            Accepts(c, signature, hash, matches)
            <==> r != 0 && s != 0 && key.Returned? && key.value.Some? && matches(key.value.value)
  {
  }

  /**
    * The byte check, exactly: it takes 65 bytes r, s and recovery bits, these with or without the offset
    * of 27, and accepts when r, s and the hash are not 0 modulo N and some key whose address matches
    * verifies the signature with the claimed point.
    */
  lemma AcceptsIff(c: CurveParams, signature: seq<Byte>, hash: seq<Byte>, R: Point, matches: Point -> bool)
    requires GroupHypotheses(c) && NoCofactor(c.p, c.n) && |signature| == 65
    requires signature[64] <= 3 || 27 <= signature[64] <= 30
    requires var bits := if signature[64] <= 3 then signature[64] else signature[64] - 27;
             Claims(c, BigEndian(signature[..32]), bits, R)
    ensures var e, r, s := BigEndian(hash), BigEndian(signature[..32]), BigEndian(signature[32..64]);
            Accepts(c, signature, hash, matches)
            <==> r % c.n != 0 && s % c.n != 0 && e % c.n != 0 && SomeKeyVerifies(c, e, r, s, R, matches)
  {
    var e, r, s := BigEndian(hash), BigEndian(signature[..32]), BigEndian(signature[32..64]);
    var bits := if signature[64] <= 3 then signature[64] else signature[64] - 27;
    AcceptsParts(c, signature, hash, matches, e, r, s, bits);
    RecoversMatching(c, e, r, s, bits, R, matches);
    ZeroReduces(r, c.n);
    ZeroReduces(s, c.n);
  }

  /** Nothing else is accepted. */
  lemma RefusedForms(c: CurveParams, signature: seq<Byte>, hash: seq<Byte>, matches: Point -> bool)
    requires PlainParams(c)
    requires |signature| == 65 ==> 3 < signature[64] < 27 || 30 < signature[64]
    ensures !Accepts(c, signature, hash, matches)
  {
  }

  // ----- Which nonce the signer takes

  /** The nonce, the abscissa of its point and z + r*d are not 0 modulo N. */
  ghost predicate Usable(c: CurveParams, d: int, z: int, k: int)
    requires GroupHypotheses(c)
  {
    && k % c.n != 0 && Multiple(c, k % c.n).Some?
    && var r := Multiple(c, k % c.n).value.x % c.n;
    && r != 0 && (z + r * d) % c.n != 0
  }

  /** The i-th nonce after k is usable. */
  ghost predicate UsableAfter(c: CurveParams, d: int, z: int, k: int, i: int)
    requires GroupHypotheses(c)
  {
    Usable(c, d, z, k + i)
  }

  lemma UsableCong(c: CurveParams, d: int, z: int, j: int, k: int)
    requires GroupHypotheses(c) && Cong(j, k, c.n)
    ensures Usable(c, d, z, j) <==> Usable(c, d, z, k)
  {
  }

  /** Counting from the next nonce. */
  lemma UsableNext(c: CurveParams, d: int, z: int, k: int, i: int)
    requires GroupHypotheses(c)
    ensures UsableAfter(c, d, z, (k + 1) % c.n, i) <==> UsableAfter(c, d, z, k, i + 1)
  {
    LaterNonce(k, i, c.n);
    UsableCong(c, d, z, (k + 1) % c.n + i, k + (i + 1));
  }

  lemma LaterNonce(k: int, j: int, n: int)
    requires n > 0
    ensures Cong((k + 1) % n + j, k + (j + 1), n)
  {
    CongResidue(k + 1, n);
    CongAdd((k + 1) % n, k + 1, j, j, n);
  }

  /** The first nonce decides: it signs, or the others are tried. */
  lemma FirstAttempt(c: CurveParams, d: int, z: int, k: int, attempts: nat) returns (s0: int)
    requires GroupHypotheses(c) && attempts > 0
    ensures UsableAfter(c, d, z, k, 0) ==>
              var o := SignOutcome(c, d, z, k, attempts); o.Returned? && SignedWith(c, d, z, k % c.n, s0, o.value)
    ensures !UsableAfter(c, d, z, k, 0) ==>
              SignOutcome(c, d, z, k, attempts) == SignOutcome(c, d, z, (k + 1) % c.n, attempts - 1)
  {
    AttemptSignsIff(c, d, z, k);
    if Usable(c, d, z, k) {
      s0 := AttemptSigns(c, d, z, k);
    } else {
      s0 := 0;
    }
  }

  /** The signer takes the first usable of its successive nonces. */
  lemma {:induction false} SignTakesFirst(c: CurveParams, d: int, z: int, k: int, attempts: nat, i: nat)
    returns (s0: int)
    requires GroupHypotheses(c) && i < attempts
    requires UsableAfter(c, d, z, k, i) && forall j | 0 <= j < i :: !UsableAfter(c, d, z, k, j)
    ensures var o := SignOutcome(c, d, z, k, attempts); o.Returned? && SignedWith(c, d, z, (k + i) % c.n, s0, o.value)
    decreases attempts
  {
    s0 := FirstAttempt(c, d, z, k, attempts);
    if i == 0 {
    } else {
      var next := (k + 1) % c.n;
      forall j | 0 <= j < i
        ensures UsableAfter(c, d, z, next, j) <==> UsableAfter(c, d, z, k, j + 1)
      {
        UsableNext(c, d, z, k, j);
      }
      assert !UsableAfter(c, d, z, k, 0);
      s0 := SignTakesFirst(c, d, z, next, attempts - 1, i - 1);
      LaterNonce(k, i - 1, c.n);
    }
  }

  /** And throws exactly when none of them is usable. */
  lemma {:induction false} SignThrowsIff(c: CurveParams, d: int, z: int, k: int, attempts: nat)
    requires GroupHypotheses(c)
    ensures SignOutcome(c, d, z, k, attempts).Threw? <==> forall i | 0 <= i < attempts :: !UsableAfter(c, d, z, k, i)
    decreases attempts
  {
    if attempts == 0 {
    } else {
      var s0 := FirstAttempt(c, d, z, k, attempts);
      var next := (k + 1) % c.n;
      SignThrowsIff(c, d, z, next, attempts - 1);
      forall i | 0 <= i < attempts - 1
        ensures UsableAfter(c, d, z, next, i) <==> UsableAfter(c, d, z, k, i + 1)
      {
        UsableNext(c, d, z, k, i);
      }
      ShiftedNonces(c, d, z, k, next, attempts);
    }
  }

  /** Nonces from k on are k and those after it. */
  lemma ShiftedNonces(c: CurveParams, d: int, z: int, k: int, next: int, attempts: nat)
    requires GroupHypotheses(c) && attempts > 0
    requires forall i | 0 <= i < attempts - 1 :: UsableAfter(c, d, z, next, i) <==> UsableAfter(c, d, z, k, i + 1)
    ensures (forall i | 0 <= i < attempts :: !UsableAfter(c, d, z, k, i))
            <==> !UsableAfter(c, d, z, k, 0) && forall i | 0 <= i < attempts - 1 :: !UsableAfter(c, d, z, next, i)
  {
    if !UsableAfter(c, d, z, k, 0) && forall i | 0 <= i < attempts - 1 :: !UsableAfter(c, d, z, next, i) {
      forall i | 0 <= i < attempts
        ensures !UsableAfter(c, d, z, k, i)
      {
        assert i > 0 ==> !UsableAfter(c, d, z, next, i - 1);
      }
    }
  }
}
