/** Double-and-add, and the group laws the wallet's recovery relies on. */
module Scalars {
  import opened Wrappers
  import opened ModArith
  import opened Euclid
  import opened Primes
  import opened Curve

  ghost predicate AssociatesAt(p: int, a: MaybePoint, b: MaybePoint, c: MaybePoint)
    requires OddPrime(p) && OnCurve(a, p) && OnCurve(b, p) && OnCurve(c, p)
  {
    Plus(p, Plus(p, a, b), c) == Plus(p, a, Plus(p, b, c))
  }

  /** HYPOTHESIS (not proved here): point addition associates on the curve. */
  ghost predicate Associative(p: int)
    requires OddPrime(p)
  {
    forall a: MaybePoint, b: MaybePoint, c: MaybePoint {:trigger AssociatesAt(p, a, b, c)} |
      OnCurve(a, p) && OnCurve(b, p) && OnCurve(c, p) :: AssociatesAt(p, a, b, c)
  }

  /** The k-fold sum of a point, by definition. */
  ghost function Times(p: int, k: nat, a: MaybePoint): (r: MaybePoint)
    requires OddPrime(p) && OnCurve(a, p)
    ensures OnCurve(r, p)
  {
    if k == 0 then None else Plus(p, a, Times(p, k - 1, a))
  }

  lemma PlusAssoc(p: int, a: MaybePoint, b: MaybePoint, c: MaybePoint)
    requires OddPrime(p) && Associative(p) && OnCurve(a, p) && OnCurve(b, p) && OnCurve(c, p)
    ensures Plus(p, Plus(p, a, b), c) == Plus(p, a, Plus(p, b, c))
  {
    assert AssociatesAt(p, a, b, c);
  }

  lemma {:induction false} TimesAdd(p: int, j: nat, k: nat, a: MaybePoint)
    requires OddPrime(p) && Associative(p) && OnCurve(a, p)
    ensures Times(p, j + k, a) == Plus(p, Times(p, j, a), Times(p, k, a))
  {
    if j == 0 {
    } else {
      TimesAdd(p, j - 1, k, a);
      PlusAssoc(p, a, Times(p, j - 1, a), Times(p, k, a));
    }
  }

  lemma {:induction false} TimesTimes(p: int, j: nat, k: nat, a: MaybePoint)
    requires OddPrime(p) && Associative(p) && OnCurve(a, p)
    ensures j * k >= 0 && Times(p, j * k, a) == Times(p, j, Times(p, k, a))
  {
    if j == 0 {
    } else {
      TimesTimes(p, j - 1, k, a);
      assert j * k == k + (j - 1) * k;
      TimesAdd(p, k, (j - 1) * k, a);
    }
  }

  lemma TimesOne(p: int, a: MaybePoint)
    requires OddPrime(p) && OnCurve(a, p)
    ensures Times(p, 1, a) == a
  {
  }

  lemma {:induction false} TimesInfinity(p: int, k: nat)
    requires OddPrime(p)
    ensures Times(p, k, None) == None
  {
    if k == 0 {
    } else {
      TimesInfinity(p, k - 1);
    }
  }

  lemma TimesTwice(p: int, h: nat, a: MaybePoint)
    requires OddPrime(p) && Associative(p) && OnCurve(a, p)
    ensures Times(p, h, Plus(p, a, a)) == Times(p, 2 * h, a)
  {
    TimesOne(p, a);
    assert Times(p, 2, a) == Plus(p, a, a);
    TimesTimes(p, h, 2, a);
    assert h * 2 == 2 * h;
  }

  // ----- The loop of pointMultiply

  ghost function NextResult(p: int, n: nat, result: MaybePoint, addend: MaybePoint): Outcome<MaybePoint>
    requires p > 0
  {
    if n % 2 == 1 then AddOutcome(p, result, addend) else Returned(result)
  }

  ghost function NextAddend(p: int, addend: MaybePoint): Outcome<MaybePoint>
    requires p > 0
  {
    if addend.Some? then DoubleOutcome(p, addend.value) else Returned(None)
  }

  /** What the loop returns when started from any of its states. */
  ghost function Ladder(p: int, n: nat, result: MaybePoint, addend: MaybePoint): Outcome<MaybePoint>
    requires p > 0
    decreases n
  {
    if n == 0 then Returned(result) else
      var result' :- NextResult(p, n, result, addend);
      var addend' :- NextAddend(p, addend);
      Ladder(p, n / 2, result', addend')
  }

  ghost function MultiplyOutcome(p: int, order: int, pt: Point, scalar: int): Outcome<MaybePoint>
    requires p > 0 && order > 0
  {
    Ladder(p, scalar % order, None, Some(pt))
  }

  lemma LadderStep(p: int, n: nat, result: MaybePoint, addend: MaybePoint)
    requires OddPrime(p) && OnCurve(result, p) && OnCurve(addend, p)
    ensures NextResult(p, n, result, addend) == Returned(if n % 2 == 1 then Plus(p, result, addend) else result)
    ensures NextAddend(p, addend) == Returned(Plus(p, addend, addend))
  {
    AddCloses(p, result, addend);
    if addend.Some? {
      DoubleIsSelfAddition(p, addend.value);
    }
  }

  /** From curve points the loop never throws and adds n times the addend to the result. */
  lemma {:induction false} LadderIsTimes(p: int, n: nat, result: MaybePoint, addend: MaybePoint)
    requires OddPrime(p) && Associative(p) && OnCurve(result, p) && OnCurve(addend, p)
    ensures Ladder(p, n, result, addend) == Returned(Plus(p, result, Times(p, n, addend)))
    decreases n
  {
    if n == 0 {
      PlusInfinity(p, result);
    } else {
      LadderStep(p, n, result, addend);
      var twice := Plus(p, addend, addend);
      TimesTwice(p, n / 2, addend);
      if n % 2 == 1 {
        LadderIsTimes(p, n / 2, Plus(p, result, addend), twice);
        assert n == 2 * (n / 2) + 1;
        PlusAssoc(p, result, addend, Times(p, n - 1, addend));
      } else {
        LadderIsTimes(p, n / 2, result, twice);
        assert n == 2 * (n / 2);
      }
    }
  }

  lemma PlusInfinity(p: int, a: MaybePoint)
    requires OddPrime(p) && OnCurve(a, p)
    ensures Plus(p, a, None) == a && Plus(p, None, a) == a
  {
  }

  /** `pointMultiply`: on a curve point, the (scalar mod order)-fold sum, whatever the scalar's sign. */
  lemma MultiplyIsTimes(p: int, order: int, pt: Point, scalar: int)
    requires OddPrime(p) && Associative(p) && PointOnCurve(pt, p) && order > 0
    ensures MultiplyOutcome(p, order, pt, scalar) == Returned(Times(p, scalar % order, Some(pt)))
  {
    LadderIsTimes(p, scalar % order, None, Some(pt));
    PlusInfinity(p, Times(p, scalar % order, Some(pt)));
  }

  /** The scalar left, the accumulator and the addend of the loop. */
  datatype LoopState = LoopState(n: nat, result: MaybePoint, addend: MaybePoint)

  /** One round of the loop leads from one state to the other. */
  ghost predicate Follows(p: int, s: LoopState, s': LoopState)
    requires p > 0
  {
    && s.n > 0 && s'.n == s.n / 2
    && NextResult(p, s.n, s.result, s.addend) == Returned(s'.result)
    && NextAddend(p, s.addend) == Returned(s'.addend)
  }

  /** The states of the loop, from the first to one that it reached. */
  ghost predicate LoopHistory(p: int, states: seq<LoopState>)
    requires p > 0
  {
    forall i | 0 <= i < |states| - 1 :: Follows(p, states[i], states[i + 1])
  }

  lemma HistoryGrows(p: int, states: seq<LoopState>, s: LoopState)
    requires p > 0 && LoopHistory(p, states) && states != [] && Follows(p, states[|states| - 1], s)
    ensures LoopHistory(p, states + [s])
  {
    var more := states + [s];
    forall i | 0 <= i < |more| - 1
      ensures Follows(p, more[i], more[i + 1])
    {
      assert i < |states| - 1 ==> Follows(p, states[i], states[i + 1]);
    }
  }

  ghost predicate StaysOnCurve(states: seq<LoopState>, p: int)
    requires p > 0
  {
    forall i | 0 <= i < |states| :: OnCurve(states[i].result, p) && OnCurve(states[i].addend, p)
  }

  /**
    * `pointMultiply`, on any coordinates. The history of the loop starts with nothing and the point,
    * goes on round by round, ends with the result, and for a curve point never leaves the curve.
    */
  method PointMultiply(p: int, order: int, pt: Point, scalar: int)
    returns (r: Outcome<MaybePoint>, ghost states: seq<LoopState>)
    requires p > 0 && order > 0
    ensures r == MultiplyOutcome(p, order, pt, scalar)
    ensures OddPrime(p) && Associative(p) && PointOnCurve(pt, p) ==> r == Returned(Times(p, scalar % order, Some(pt)))
    ensures states != [] && states[0] == LoopState(scalar % order, None, Some(pt)) && LoopHistory(p, states)
    ensures r.Returned? ==> states[|states| - 1].n == 0 && states[|states| - 1].result == r.value
    ensures OddPrime(p) && PointOnCurve(pt, p) ==> StaysOnCurve(states, p)
  {
    if OddPrime(p) && Associative(p) && PointOnCurve(pt, p) {
      MultiplyIsTimes(p, order, pt, scalar);
    }
    var n := Reduce(scalar, order);
    var result: MaybePoint := None;
    var addend: MaybePoint := Some(pt);
    states := [LoopState(n, result, addend)];
    while n > 0
      invariant n >= 0
      invariant Ladder(p, n, result, addend) == MultiplyOutcome(p, order, pt, scalar)
      invariant states != [] && states[0] == LoopState(scalar % order, None, Some(pt)) && LoopHistory(p, states)
      invariant states[|states| - 1] == LoopState(n, result, addend)
      invariant OddPrime(p) && PointOnCurve(pt, p) ==> StaysOnCurve(states, p)
      decreases n
    {
      if OddPrime(p) && PointOnCurve(pt, p) {
        assert OnCurve(result, p) && OnCurve(addend, p);
        LadderStep(p, n, result, addend);
      }
      var sum := Returned(result);
      if n % 2 == 1 {
        sum := PointAdd(p, result, addend);
      }
      if sum.Threw? {
        return Threw, states;
      }
      var twice := Returned(None);
      if addend.Some? {
        twice := PointDouble(p, addend.value);
      }
      if twice.Threw? {
        return Threw, states;
      }
      result := sum.value;
      addend := twice.value;
      n := n / 2;
      HistoryGrows(p, states, LoopState(n, result, addend));
      states := states + [LoopState(n, result, addend)];
    }
    r := Returned(result);
  }

  // ----- Multiples of a point of prime order

  ghost predicate HasOrder(p: int, n: int, a: Point)
    requires OddPrime(p)
  {
    IsPrime(n) && PointOnCurve(a, p) && Times(p, n, Some(a)) == None
  }

  lemma TimesModulo(p: int, n: int, a: Point, k: nat)
    requires OddPrime(p) && Associative(p) && HasOrder(p, n, a)
    ensures Times(p, k, Some(a)) == Times(p, k % n, Some(a))
  {
    var q, r := Quotient(k, n);
    TimesWraps(p, n, a, q, r, k);
  }

  lemma TimesWraps(p: int, n: int, a: Point, q: nat, r: nat, k: nat)
    requires OddPrime(p) && Associative(p) && HasOrder(p, n, a) && k == n * q + r
    ensures Times(p, k, Some(a)) == Times(p, r, Some(a))
  {
    var m := q * n;
    assert m == n * q;
    TimesTimes(p, q, n, Some(a));
    TimesInfinity(p, q);
    TimesAdd(p, m, r, Some(a));
    PlusInfinity(p, Times(p, r, Some(a)));
  }

  /** The multiples that vanish are exactly the multiples of the order. */
  lemma TimesVanishes(p: int, n: int, a: Point, k: nat)
    requires OddPrime(p) && Associative(p) && HasOrder(p, n, a)
    ensures Times(p, k, Some(a)) == None <==> k % n == 0
  {
    TimesModulo(p, n, a, k);
    if Times(p, k, Some(a)) == None && k % n != 0 {
      var i := InverseOfNonzero(k, n);
      TimesTimes(p, i, k, Some(a));
      TimesInfinity(p, i);
      TimesModulo(p, n, a, i * k);
      assert i * k == k * i;
      SmallResidue(1, n);
      TimesOne(p, Some(a));
    }
  }

  lemma TimesCong(p: int, n: int, a: Point, j: nat, k: nat)
    requires OddPrime(p) && Associative(p) && HasOrder(p, n, a) && Cong(j, k, n)
    ensures Times(p, j, Some(a)) == Times(p, k, Some(a))
  {
    TimesModulo(p, n, a, j);
    TimesModulo(p, n, a, k);
  }

  /** Negating a multiple gives the complementary multiple. */
  lemma TimesNegate(p: int, n: int, a: Point, k: nat)
    requires OddPrime(p) && Associative(p) && HasOrder(p, n, a) && 0 < k < n
    ensures Times(p, k, Some(a)).Some?
    ensures Times(p, n - k, Some(a)) == Some(Negate(Times(p, k, Some(a)).value, p))
  {
    SmallResidue(k, n);
    TimesVanishes(p, n, a, k);
    TimesAdd(p, k, n - k, Some(a));
    OppositeIsUnique(p, Times(p, k, Some(a)).value, Times(p, n - k, Some(a)));
  }

  /** A non-zero multiple of a point of odd prime order has a non-zero ordinate. */
  lemma MultipleNotSelfOpposite(p: int, n: int, a: Point, k: nat)
    requires OddPrime(p) && Associative(p) && HasOrder(p, n, a) && n > 2 && k % n != 0
    ensures Times(p, k, Some(a)).Some? && Times(p, k, Some(a)).value.y != 0
  {
    TimesVanishes(p, n, a, k);
    var b := Times(p, k, Some(a));
    if b.value.y == 0 {
      NegateCancels(p, b.value);
      assert Plus(p, b, b) == None;
      TimesAdd(p, k, k, Some(a));
      TimesVanishes(p, n, a, k + k);
      SmallResidue(2, n);
      ZeroProduct(2, k, n);
    }
  }
}
