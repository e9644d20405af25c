/** ECDSA public-key recovery and the signer it undoes. */
module Recovery {
  import opened Wrappers
  import opened ModArith
  import opened Euclid
  import opened Primes
  import opened SquareRoots
  import opened Curve
  import opened Scalars

  /** The constants P, N and G of the code, kept as parameters. */
  datatype CurveParams = CurveParams(p: int, n: int, g: Point)

  /** What the code's own arithmetic relies on and anyone can check on the constants. */
  predicate PlainParams(c: CurveParams) {
    c.p >= 3 && c.p % 4 == 3 && 2 < c.n && c.p <= 2 * c.n
  }

  /** HYPOTHESES on the curve: prime moduli, an associative addition, and G of order n. */
  ghost predicate GroupHypotheses(c: CurveParams) {
    && PlainParams(c)
    && OddPrime(c.p) && IsPrime(c.n)
    && Associative(c.p)
    && HasOrder(c.p, c.n, c.g)
  }

  ghost function Multiple(c: CurveParams, k: nat): MaybePoint
    requires GroupHypotheses(c)
  {
    Times(c.p, k, Some(c.g))
  }

  // ----- Recovery

  function CurveRight(x: int): int {
    x * x * x + 7
  }

  /** The ordinate recovery picks for an abscissa and a parity bit. */
  function PickOrdinate(x: int, parity: int, p: int): int
    requires p > 0
  {
    var beta := RootCandidate(CurveRight(x) % p, p);
    if beta % 2 == parity then beta else p - beta
  }

  ghost function RecoverOutcome(c: CurveParams, e: int, r: int, s: int, recovery: nat): Outcome<MaybePoint>
    requires PlainParams(c)
  {
    var x := r + (recovery / 2) * c.n;
    if x >= c.p then Returned(None) else
      var rPoint := Point(x, PickOrdinate(x, recovery % 2, c.p));
      var check :- MultiplyOutcome(c.p, c.n, rPoint, c.n);
      if check.Some? then Returned(None) else
        var rInv :- InvertOutcome(r, c.n);
        var sR :- MultiplyOutcome(c.p, c.n, rPoint, s);
        var eG :- MultiplyOutcome(c.p, c.n, c.g, e);
        if sR.None? || eG.None? then Returned(None) else
          var candidate :- AddOutcome(c.p, sR, Some(Negate(eG.value, c.p)));
          if candidate.None? then Returned(None) else MultiplyOutcome(c.p, c.n, candidate.value, rInv)
  }

  /** `recoverSecp256k1PublicKey`, with the hash already read as a number. */
  method Recover(c: CurveParams, e: int, r: int, s: int, recovery: nat) returns (result: Outcome<MaybePoint>)
    requires PlainParams(c)
    ensures result == RecoverOutcome(c, e, r, s, recovery)
  {
    var x := r + (recovery / 2) * c.n;
    if x >= c.p {
      return Returned(None);
    }
    var alpha := Reduce(x * x * x + 7, c.p);
    var beta := PowMod(alpha, (c.p + 1) / 4, c.p);
    var y := if beta % 2 == recovery % 2 then beta else c.p - beta;
    var rPoint := Point(x, y);
    var check, _ := PointMultiply(c.p, c.n, rPoint, c.n);
    result := if check.Threw? then Threw else Returned(None);
    if check == Returned(None) {
      var rInv, _, _ := InvertMod(r, c.n);
      if rInv.Threw? {
        return Threw;
      }
      var sR, _ :- PointMultiply(c.p, c.n, rPoint, s);
      var eG, _ :- PointMultiply(c.p, c.n, c.g, e);
      if sR.None? || eG.None? {
        return Returned(None);
      }
      var candidate :- PointAdd(c.p, sR, Some(Negate(eG.value, c.p)));
      if candidate.None? {
        return Returned(None);
      }
      var key, _ := PointMultiply(c.p, c.n, candidate.value, rInv.value);
      result := key;
    }
  }

  /** Multiplying by N reduces the scalar to zero, so the order check never rejects anything. */
  lemma OrderCheckNeverFires(p: int, n: int, pt: Point)
    requires p > 0 && n > 0
    ensures MultiplyOutcome(p, n, pt, n) == Returned(None)
  {
  }

  /**
    * The ordinate recovery picks is a root of x^3 + 7 exactly when x is the abscissa of some
    * curve point: the code never checks, so otherwise it goes on with a point off the curve.
    */
  lemma PickedOrdinateIffAbscissa(x: int, parity: int, p: int)
    requires OddPrime(p) && p % 4 == 3
    ensures IsRoot(PickOrdinate(x, parity, p), CurveRight(x), p) <==> exists y :: IsRoot(y, CurveRight(x), p)
  {
    var alpha := CurveRight(x) % p;
    CongResidue(CurveRight(x), p);
    var beta := RootCandidate(alpha, p);
    CandidateIsRootIffSquare(alpha, p);
    NegatedSquare(beta, p);
    assert IsRoot(PickOrdinate(x, parity, p), alpha, p) <==> IsRoot(beta, alpha, p);
    if y :| IsRoot(y, CurveRight(x), p) {
      assert IsRoot(y, alpha, p);
    }
    if y :| IsRoot(y, alpha, p) {
      assert IsRoot(y, CurveRight(x), p);
    }
  }

  /** From the abscissa and parity of a curve point of non-zero ordinate, that very point. */
  lemma PickOrdinateFindsPoint(pt: Point, p: int)
    requires OddPrime(p) && p % 4 == 3 && PointOnCurve(pt, p) && pt.y != 0
    ensures PickOrdinate(pt.x, pt.y % 2, p) == pt.y
    ensures PickOrdinate(pt.x, 1 - pt.y % 2, p) == p - pt.y
  {
    var alpha := CurveRight(pt.x) % p;
    CongResidue(CurveRight(pt.x), p);
    assert IsRoot(pt.y, alpha, p);
    var beta := RootCandidate(alpha, p);
    CandidateIsRootIffSquare(alpha, p);
    ParityPicksRoot(beta, pt.y, alpha, p);
    if beta == 0 {
      CongMul(0, 0, 0, 0, p);
      ZeroProduct(pt.y, pt.y, p);
      SmallResidue(pt.y, p);
    }
  }

  // ----- The signer

  datatype Signature = Signature(r: int, s: int, recovery: nat)

  /** One attempt of `signEthereumMessage` with nonce k; None means the nonce is skipped. */
  ghost function Attempt(c: CurveParams, d: int, z: int, k: int): Outcome<Option<Signature>>
    requires PlainParams(c)
  {
    var point :- MultiplyOutcome(c.p, c.n, c.g, k);
    if point.None? then Returned(None) else
      var r := point.value.x % c.n;
      if r == 0 then Returned(None) else
        var kInv :- InvertOutcome(k, c.n);
        var s := (kInv * (z + r * d)) % c.n;
        if s == 0 then Returned(None) else
          Returned(Some(LowS(c.n, r, s, point.value.y % 2, point.value.x >= c.n)))
  }

  /** The low-s rule: a high s is replaced by N - s and the parity bit is flipped. */
  function LowS(n: int, r: int, s: int, parity: nat, overflow: bool): Signature
    requires parity < 2
  {
    var high := s > n / 2;
    Signature(r, if high then n - s else s,
              (if overflow then 2 else 0) + (if high then 1 - parity else parity))
  }

  /** The signer tries nonces k, k+1, ... and throws when none of them works. */
  ghost function SignOutcome(c: CurveParams, d: int, z: int, k: int, attempts: nat): Outcome<Signature>
    requires PlainParams(c)
    decreases attempts
  {
    if attempts == 0 then Threw else
      var sig :- Attempt(c, d, z, k);
      if sig.Some? then Returned(sig.value) else SignOutcome(c, d, z, (k + 1) % c.n, attempts - 1)
  }

  /** A high s is replaced and the parity bit of the recovery value flipped. */
  method ApplyLowS(n: int, r: int, s: int, recovery: nat) returns (sig: Signature)
    requires recovery <= 3
    ensures sig == LowS(n, r, s, recovery % 2, recovery >= 2)
  {
    sig := Signature(r, s, recovery);
    if s > n / 2 {
      sig := Signature(r, n - s, if recovery % 2 == 1 then recovery - 1 else recovery + 1);
    }
  }

  /** The body of the signing loop for one nonce. */
  method TryNonce(c: CurveParams, d: int, z: int, k: int) returns (result: Outcome<Option<Signature>>)
    requires PlainParams(c)
    ensures result == Attempt(c, d, z, k)
  {
    var point, _ :- PointMultiply(c.p, c.n, c.g, k);
    if point.None? {
      return Returned(None);
    }
    var r := Reduce(point.value.x, c.n);
    if r == 0 {
      return Returned(None);
    }
    var kInv, _, _ := InvertMod(k, c.n);
    if kInv.Threw? {
      return Threw;
    }
    var s := Reduce(kInv.value * (z + r * d), c.n);
    if s == 0 {
      return Returned(None);
    }
    var sig := ApplyLowS(c.n, r, s, point.value.y % 2 + if point.value.x >= c.n then 2 else 0);
    result := Returned(Some(sig));
  }

  /** `signEthereumMessage`: the first of 32 successive nonces that is not skipped. */
  method Sign(c: CurveParams, d: int, z: int, nonce: int) returns (result: Outcome<Signature>)
    requires PlainParams(c)
    ensures result == SignOutcome(c, d, z, nonce, 32)
  {
    var k := nonce;
    for attempt := 0 to 32
      invariant SignOutcome(c, d, z, nonce, 32) == SignOutcome(c, d, z, k, 32 - attempt)
    {
      var sig :- TryNonce(c, d, z, k);
      if sig.Some? {
        return Returned(sig.value);
      }
      k := Reduce(k + 1, c.n);
    }
    result := Threw;
  }

  // ----- The round trip

  /** What a returned signature is: some nonce k with R = kG, r from R's abscissa and s*k = z + r*d. */
  ghost predicate SignedWith(c: CurveParams, d: int, z: int, k: nat, s0: int, sig: Signature)
    requires GroupHypotheses(c)
  {
    && 0 < k < c.n && Multiple(c, k).Some?
    && 0 < s0 < c.n && Cong(s0 * k, z + sig.r * d, c.n)
    && 0 < sig.r < c.n
    && var R := Multiple(c, k).value;
    && sig.r == R.x % c.n
    && sig == LowS(c.n, sig.r, s0, R.y % 2, R.x >= c.n)
  }

  lemma AttemptSigns(c: CurveParams, d: int, z: int, k: int) returns (s0: int)
    requires GroupHypotheses(c) && Attempt(c, d, z, k).Returned? && Attempt(c, d, z, k).value.Some?
    ensures SignedWith(c, d, z, k % c.n, s0, Attempt(c, d, z, k).value.value)
  {
    var j := k % c.n;
    MultiplyIsTimes(c.p, c.n, c.g, k);
    var R := Multiple(c, j).value;
    assert j != 0;
    var r := R.x % c.n;
    var kInv := Inverse(k, c.n).value;
    assert IsInverse(k, c.n, kInv);
    SolveForS(k, j, kInv, z + r * d, c.n);
    s0 := (kInv * (z + r * d)) % c.n;
  }

  lemma SolveForS(k: int, j: int, kInv: int, m: int, n: int)
    requires n > 0 && Cong(k * kInv, 1, n) && j == k % n
    ensures Cong(((kInv * m) % n) * j, m, n)
  {
    CongResidue(k, n);
    CongResidue(kInv * m, n);
    CongMul((kInv * m) % n, kInv * m, j, k, n);
    CongMul(k * kInv, 1, m, m, n);
    assert (kInv * m) * k == (k * kInv) * m;
  }

  /** Whatever the signer returns was made with some nonce, and has a low s. */
  lemma {:induction false} SignerSigns(c: CurveParams, d: int, z: int, nonce: int, attempts: nat)
    returns (k: nat, s0: int)
    requires GroupHypotheses(c) && SignOutcome(c, d, z, nonce, attempts).Returned?
    ensures SignedWith(c, d, z, k, s0, SignOutcome(c, d, z, nonce, attempts).value)
    decreases attempts
  {
    if Attempt(c, d, z, nonce).value.Some? {
      k := nonce % c.n;
      s0 := AttemptSigns(c, d, z, nonce);
    } else {
      k, s0 := SignerSigns(c, d, z, (nonce + 1) % c.n, attempts - 1);
    }
  }

  /** j is the multiple recovery works with: sig.s*j is z + r*d and jG has the signed abscissa. */
  ghost predicate Rebuilt(c: CurveParams, d: int, z: int, sig: Signature, j: nat)
    requires GroupHypotheses(c)
  {
    && 0 < j < c.n && 0 < sig.s < c.n && 0 < sig.r < c.n
    && Cong(sig.s * j, z + sig.r * d, c.n)
    && var x := sig.r + (sig.recovery / 2) * c.n;
    && x < c.p && Multiple(c, j) == Some(Point(x, PickOrdinate(x, sig.recovery % 2, c.p)))
  }

  lemma LowSBits(n: int, r: int, s: int, parity: nat, overflow: bool)
    requires parity < 2
    ensures var sig := LowS(n, r, s, parity, overflow);
            && sig.recovery / 2 == (if overflow then 1 else 0)
            && sig.recovery % 2 == (if s > n / 2 then 1 - parity else parity)
            && sig.recovery <= 3
  {
  }

  /** With the bits of R itself, recovery rebuilds R. */
  lemma RebuildsSame(c: CurveParams, R: Point, r: int, parity: nat, overflow: bool)
    requires GroupHypotheses(c) && PointOnCurve(R, c.p) && R.y != 0
    requires r == R.x % c.n && overflow == (R.x >= c.n) && parity == R.y % 2
    ensures r + (if overflow then 1 else 0) * c.n == R.x
    ensures PickOrdinate(R.x, parity, c.p) == R.y
    ensures Negate(R, c.p) == Point(R.x, PickOrdinate(R.x, 1 - parity, c.p))
  {
    PickOrdinateFindsPoint(R, c.p);
    AbscissaFromResidue(R.x, c.n, c.p);
    NegateCancels(c.p, R);
  }

  /** Recovery rebuilds R from r and the recovery bits, or -R after a low-s flip. */
  lemma RebuildsPoint(c: CurveParams, d: int, z: int, k: nat, s0: int, sig: Signature) returns (j: nat)
    requires GroupHypotheses(c) && SignedWith(c, d, z, k, s0, sig)
    ensures Rebuilt(c, d, z, sig, j)
  {
    var R := Multiple(c, k).value;
    SmallResidue(k, c.n);
    MultipleNotSelfOpposite(c.p, c.n, c.g, k);
    RebuildsSame(c, R, sig.r, R.y % 2, R.x >= c.n);
    LowSBits(c.n, sig.r, s0, R.y % 2, R.x >= c.n);
    j := if s0 > c.n / 2 then c.n - k else k;
    JIsRebuilt(c, d, z, k, s0, sig, j);
  }

  lemma JIsRebuilt(c: CurveParams, d: int, z: int, k: nat, s0: int, sig: Signature, j: nat)
    requires GroupHypotheses(c) && 0 < k < c.n && 0 < s0 < c.n && 0 < sig.r < c.n
    requires Multiple(c, k).Some? && Cong(s0 * k, z + sig.r * d, c.n)
    requires var R := Multiple(c, k).value;
             && sig.r + (sig.recovery / 2) * c.n == R.x
             && sig.s == (if s0 > c.n / 2 then c.n - s0 else s0)
             && j == (if s0 > c.n / 2 then c.n - k else k)
             && Point(R.x, PickOrdinate(R.x, sig.recovery % 2, c.p)) == (if s0 > c.n / 2 then Negate(R, c.p) else R)
    ensures Rebuilt(c, d, z, sig, j)
  {
    if s0 > c.n / 2 {
      TimesNegate(c.p, c.n, c.g, k);
      FlipBoth(s0, k, z + sig.r * d, c.n);
    }
  }

  lemma AbscissaFromResidue(x: int, n: int, p: int)
    requires 0 <= x < p <= 2 * n && n > 0
    ensures x == x % n + if x >= n then n else 0
  {
  }

  lemma FlipBoth(s: int, k: int, m: int, n: int)
    requires n > 0 && Cong(s * k, m, n)
    ensures Cong((n - s) * (n - k), m, n)
  {
    CongFromMultiple(n - s, -s, 1, n);
    CongFromMultiple(n - k, -k, 1, n);
    CongMul(n - s, -s, n - k, -k, n);
    NegatedProduct(s, k);
  }

  lemma NegatedProduct(s: int, k: int)
    ensures -s * -k == s * k
  {
  }

  /** Multiplying the multiple jG by a scalar. */
  lemma MultiplyMultiple(c: CurveParams, j: nat, pt: Point, scalar: int)
    requires GroupHypotheses(c) && Multiple(c, j) == Some(pt)
    ensures MultiplyOutcome(c.p, c.n, pt, scalar) == Returned(Multiple(c, (scalar * j) % c.n))
  {
    var t := scalar % c.n;
    MultiplyIsTimes(c.p, c.n, pt, scalar);
    TimesTimes(c.p, t, j, Some(c.g));
    CongResidue(scalar, c.n);
    CongMul(t, scalar, j, j, c.n);
    TimesModulo(c.p, c.n, c.g, t * j);
  }

  lemma MultiplyGenerator(c: CurveParams, scalar: int)
    requires GroupHypotheses(c)
    ensures MultiplyOutcome(c.p, c.n, c.g, scalar) == Returned(Multiple(c, scalar % c.n))
    ensures Multiple(c, scalar % c.n) == None <==> scalar % c.n == 0
  {
    MultiplyIsTimes(c.p, c.n, c.g, scalar);
    TimesVanishes(c.p, c.n, c.g, scalar % c.n);
    SmallResidue(scalar % c.n, c.n);
  }

  /** sR - eG is (r*d)G. */
  lemma CandidateIs(c: CurveParams, d: int, z: int, sig: Signature, j: nat)
    requires GroupHypotheses(c) && Rebuilt(c, d, z, sig, j) && z % c.n != 0
    ensures Multiple(c, z % c.n).Some?
    ensures AddOutcome(c.p, Multiple(c, (sig.s * j) % c.n), Some(Negate(Multiple(c, z % c.n).value, c.p)))
            == Returned(Multiple(c, (sig.r * d) % c.n))
  {
    var e := z % c.n;
    var u := (sig.s * j) % c.n;
    TimesNegate(c.p, c.n, c.g, e);
    TimesAdd(c.p, u, c.n - e, Some(c.g));
    CandidateScalar(sig.s * j, z, sig.r * d, c.n);
    TimesModulo(c.p, c.n, c.g, u + (c.n - e));
    AddCloses(c.p, Multiple(c, u), Multiple(c, c.n - e));
  }

  lemma CandidateScalar(t: int, z: int, w: int, n: int)
    requires n > 0 && Cong(t, z + w, n)
    ensures (t % n + (n - z % n)) % n == w % n
  {
    CongResidue(t, n);
    CongResidue(z, n);
    CongAdd(t % n, z + w, z % n, z, n);
    CongFromMultiple(t % n + (n - z % n), t % n - z % n, 1, n);
  }

  lemma SecretScalar(r: int, d: int, rInv: int, n: int)
    requires n > 0 && 0 <= d < n && Cong(r * rInv, 1, n)
    ensures (rInv * ((r * d) % n)) % n == d
  {
    CongResidue(r * d, n);
    CongMul(rInv, rInv, (r * d) % n, r * d, n);
    CongMul(r * rInv, 1, d, d, n);
    assert rInv * (r * d) == (r * rInv) * d;
    SmallResidue(d, n);
  }

  lemma NonzeroProduct(a: int, b: int, n: int)
    requires IsPrime(n) && 0 < a < n && 0 < b < n
    ensures (a * b) % n != 0
  {
    SmallResidue(a, n);
    SmallResidue(b, n);
    ZeroProduct(a, b, n);
  }

  lemma ReducedMultiple(c: CurveParams, k: int)
    requires GroupHypotheses(c)
    ensures Multiple(c, k % c.n) == None <==> k % c.n == 0
  {
    MultiplyGenerator(c, k);
  }

  /** Dividing (r*d)G by r. */
  lemma DividesOutR(c: CurveParams, d: int, r: int, rInv: int)
    requires GroupHypotheses(c) && 0 < d < c.n && 0 < r < c.n && Cong(r * rInv, 1, c.n)
    ensures Multiple(c, (r * d) % c.n).Some?
    ensures MultiplyOutcome(c.p, c.n, Multiple(c, (r * d) % c.n).value, rInv) == Returned(Multiple(c, d))
  {
    NonzeroProduct(r, d, c.n);
    ReducedMultiple(c, r * d);
    var w := (r * d) % c.n;
    MultiplyMultiple(c, w, Multiple(c, w).value, rInv);
    SecretScalar(r, d, rInv, c.n);
  }

  /** Recovery from the outcomes of its steps, once the order check has passed. */
  lemma RecoverFrom(c: CurveParams, e: int, r: int, s: int, recovery: nat,
                    rPoint: Point, rInv: int, sR: MaybePoint, eG: MaybePoint)
    requires PlainParams(c) && r + (recovery / 2) * c.n < c.p
    requires rPoint == Point(r + (recovery / 2) * c.n, PickOrdinate(r + (recovery / 2) * c.n, recovery % 2, c.p))
    requires InvertOutcome(r, c.n) == Returned(rInv)
    requires MultiplyOutcome(c.p, c.n, rPoint, s) == Returned(sR)
    requires MultiplyOutcome(c.p, c.n, c.g, e) == Returned(eG)
    ensures sR.None? || eG.None? ==> RecoverOutcome(c, e, r, s, recovery) == Returned(None)
    ensures sR.Some? && eG.Some? ==>
              forall key: Point | AddOutcome(c.p, sR, Some(Negate(eG.value, c.p))) == Returned(Some(key)) ::
                RecoverOutcome(c, e, r, s, recovery) == MultiplyOutcome(c.p, c.n, key, rInv)
    ensures sR.Some? && eG.Some? && AddOutcome(c.p, sR, Some(Negate(eG.value, c.p))) == Returned(None) ==>
              RecoverOutcome(c, e, r, s, recovery) == Returned(None)
  {
    OrderCheckNeverFires(c.p, c.n, rPoint);
  }

  /**
    * The round trip: from a signature made with secret d on a hash that is not zero modulo the
    * order, recovery returns exactly the public key dG.
    */
  lemma RecoverUndoesSigning(c: CurveParams, d: int, z: int, k: nat, s0: int, sig: Signature)
    requires GroupHypotheses(c) && 0 < d < c.n && SignedWith(c, d, z, k, s0, sig)
    ensures RecoverOutcome(c, z, sig.r, sig.s, sig.recovery)
            == Returned(if z % c.n == 0 then None else Multiple(c, d))
    ensures Multiple(c, d).Some?
  {
    var j := RebuildsPoint(c, d, z, k, s0, sig);
    var x := sig.r + (sig.recovery / 2) * c.n;
    var rPoint := Point(x, PickOrdinate(x, sig.recovery % 2, c.p));
    MultiplyMultiple(c, j, rPoint, sig.s);
    MultiplyGenerator(c, z);
    SmallResidue(d, c.n);
    ReducedMultiple(c, d);
    SmallResidue(sig.r, c.n);
    var rInv := InverseOfNonzero(sig.r, c.n);
    RecoverFrom(c, z, sig.r, sig.s, sig.recovery, rPoint, rInv, Multiple(c, (sig.s * j) % c.n), Multiple(c, z % c.n));
    if z % c.n != 0 {
      NonzeroProduct(sig.s, j, c.n);
      ReducedMultiple(c, sig.s * j);
      CandidateIs(c, d, z, sig, j);
      DividesOutR(c, d, sig.r, rInv);
    }
  }

  /**
    * Signing and then recovering on one hash gives back the signer's public key, for every
    * secret and whatever nonce it starts from, exactly when the hash is not zero modulo the order.
    */
  lemma SignThenRecover(c: CurveParams, d: int, z: int, nonce: int)
    requires GroupHypotheses(c) && 0 < d < c.n
    requires SignOutcome(c, d, z, nonce, 32).Returned?
    ensures var sig := SignOutcome(c, d, z, nonce, 32).value;
            RecoverOutcome(c, z, sig.r, sig.s, sig.recovery) == Returned(Multiple(c, d)) <==> z % c.n != 0
  {
    var k, s0 := SignerSigns(c, d, z, nonce, 32);
    RecoverUndoesSigning(c, d, z, k, s0, SignOutcome(c, d, z, nonce, 32).value);
  }

  lemma SIsNonzero(k: int, kInv: int, m: int, n: int)
    requires IsPrime(n) && IsInverse(k, n, kInv)
    ensures (kInv * m) % n == 0 <==> m % n == 0
  {
    ZeroProduct(kInv, m, n);
    if kInv % n == 0 {
      ZeroProduct(k, kInv, n);
      SmallResidue(1, n);
    }
  }

  /** A nonce is used exactly when it, the abscissa of its point and z + r*d are not zero modulo the order. */
  lemma AttemptSignsIff(c: CurveParams, d: int, z: int, k: int)
    requires GroupHypotheses(c)
    ensures Attempt(c, d, z, k).Returned?
    ensures Attempt(c, d, z, k).value.Some? <==>
              && k % c.n != 0 && Multiple(c, k % c.n).Some?
              && var r := Multiple(c, k % c.n).value.x % c.n;
              && r != 0 && (z + r * d) % c.n != 0
  {
    MultiplyGenerator(c, k);
    if k % c.n != 0 {
      var kInv := InverseOfNonzero(k, c.n);
      SIsNonzero(k, kInv, z + (Multiple(c, k % c.n).value.x % c.n) * d, c.n);
    }
  }

  /** A hash that is zero modulo the order is signed like any other, but never recovered from. */
  lemma ZeroHashIsSigned(c: CurveParams, d: int, z: int, k: int)
    requires GroupHypotheses(c) && 0 < d < c.n && z % c.n == 0
    requires k % c.n != 0 && Multiple(c, k % c.n).Some? && Multiple(c, k % c.n).value.x % c.n != 0
    ensures Attempt(c, d, z, k).Returned? && Attempt(c, d, z, k).value.Some?
    ensures var sig := Attempt(c, d, z, k).value.value;
            RecoverOutcome(c, z, sig.r, sig.s, sig.recovery) == Returned(None)
  {
    var r := Multiple(c, k % c.n).value.x % c.n;
    NonzeroProduct(r, d, c.n);
    SmallResidue(0, c.n);
    CongAdd(z, 0, r * d, r * d, c.n);
    AttemptSignsIff(c, d, z, k);
    var s0 := AttemptSigns(c, d, z, k);
    RecoverUndoesSigning(c, d, z, k % c.n, s0, Attempt(c, d, z, k).value.value);
  }
}
