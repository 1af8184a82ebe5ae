/** What the solver's answer means: when it is exact and when a refusal is right, against all
    triples of a prescaler and two segments in unbounded arithmetic, as conditions on the inputs. */
module BitTimingExact {
  import opened Arithmetic
  import opened Words
  import opened BitTiming

  // A triple within the limits whose bitrate is exactly the requested one.
  predicate Legal(p: Problem, brp: u32, tseg1: u32, tseg2: u32) {
    && p.lim.brpMin <= brp <= p.lim.brpMax
    && p.lim.tseg1Min <= tseg1 <= p.lim.tseg1Max
    && p.lim.tseg2Min <= tseg2 <= p.lim.tseg2Max && tseg2 >= 1
    && p.lim.tqMin <= 1 + tseg1 + tseg2 <= p.lim.tqMax
    && Exact(p, brp, 1 + tseg1 + tseg2)
  }

  predicate Exact(p: Problem, brp: u32, tq: nat) { (brp * p.bitrate) * tq == p.clock }

  // The product the solver computes in 32 bits is the true one.
  predicate Fits(p: Problem, brp: u32) { brp * p.bitrate < 0x1_0000_0000 }

  // And neither does the first segment start at a number that wraps.
  predicate Sound(p: Problem, brp: u32) { Fits(p, brp) && p.lim.tseg1Min < LAST }

  predicate Asked(p: Problem) { p.clock > 0 && p.bitrate > 0 }

  ghost predicate SomeLegal(p: Problem) {
    exists brp: u32, tseg1: u32, tseg2: u32 :: Legal(p, brp, tseg1, tseg2)
  }

  // ------------------------------------------------------------- products and quotients

  lemma PositiveFactors(d: nat, q: nat)
    requires d * q > 0
    ensures d > 0 && q > 0
  {
  }

  lemma Grows(d: nat, q: nat)
    requires q >= 1
    ensures d * q >= d
  {
  }

  lemma ZeroFactor(k: int, d: nat)
    requires k * d == 0 && d > 0
    ensures k == 0
  {
  }

  lemma MultipleDivides(d: nat, q: nat)
    requires d > 0
    ensures (d * q) % d == 0 && (d * q) / d == q
  {
    var a, r := (d * q) / d, (d * q) % d;
    assert d * q == d * a + r;
    assert (q - a) * d == r;
    MultipleOutside(q - a, d);
    ZeroFactor(q - a, d);
  }

  lemma DivideBack(d: nat, q: nat, x: nat)
    requires d * q == x && x > 0
    ensures 0 < d <= x && q > 0 && x % d == 0 && x / d == q
  {
    PositiveFactors(d, q);
    Grows(d, q);
    MultipleDivides(d, q);
  }

  lemma FittingDivisor(p: Problem, brp: u32, d: nat)
    requires d == brp * p.bitrate && d < 0x1_0000_0000
    ensures Divisor(p, brp) == d
  {
  }

  lemma CandidateDivides(p: Problem, brp: u32)
    requires Asked(p) && Divides(p, brp)
    ensures Quanta(p, brp) > 0 && Divisor(p, brp) * Quanta(p, brp) == p.clock
  {
    WholeQuotient(p.clock, Divisor(p, brp));
    QuantaProduct(p, brp);
  }

  lemma TooLarge(x: nat, q: nat)
    requires x >= 0x1_0000_0000 && q > 0
    ensures x * q >= 0x1_0000_0000
  {
    Grows(x, q);
  }

  // ------------------------------------------------------------- legal triples and accepted pairs

  lemma ExactQuanta(p: Problem, brp: u32, tq: nat)
    requires Asked(p) && Exact(p, brp, tq)
    ensures Fits(p, brp) && Divides(p, brp) && Quanta(p, brp) == tq > 0
  {
    var d := brp * p.bitrate;
    DivideBack(d, tq, p.clock);
    FittingDivisor(p, brp, d);
  }

  // A legal triple never overflows, so the solver always sees it.
  lemma LegalIsCandidate(p: Problem, brp: u32, tseg1: u32, tseg2: u32)
    requires Asked(p) && Legal(p, brp, tseg1, tseg2)
    ensures Sound(p, brp) && Candidate(p, brp, tseg1) && Quanta(p, brp) == 1 + tseg1 + tseg2
  {
    ExactQuanta(p, brp, 1 + tseg1 + tseg2);
  }

  // What the solver accepts has the requested bitrate exactly when the 32-bit product of its
  // prescaler and the bitrate did not wrap.
  lemma AcceptedExactIffFits(p: Problem, brp: u32, tseg1: u32)
    requires Asked(p) && Candidate(p, brp, tseg1)
    ensures Exact(p, brp, Quanta(p, brp)) <==> Fits(p, brp)
  {
    CandidateDivides(p, brp);
    if Fits(p, brp) {
      FittingDivisor(p, brp, brp * p.bitrate);
    } else {
      TooLarge(brp * p.bitrate, Quanta(p, brp));
    }
  }

  /** What the solver accepts is legal exactly when nothing wrapped on the way to it. */
  lemma AcceptedLegalIffSound(p: Problem, brp: u32, tseg1: u32)
    requires Asked(p) && Candidate(p, brp, tseg1)
    ensures Legal(p, brp, tseg1, Second(Quanta(p, brp), tseg1)) <==> Sound(p, brp)
  {
    if Sound(p, brp) {
      AcceptedExactIffFits(p, brp, tseg1);
    } else if Legal(p, brp, tseg1, Second(Quanta(p, brp), tseg1)) {
      LegalIsCandidate(p, brp, tseg1, Second(Quanta(p, brp), tseg1));
    }
  }

  /** A legal triple is never missed, whatever wraps elsewhere in the search. */
  lemma NeverMisses(p: Problem, best: Option<Timing>, brp: u32, tseg1: u32, tseg2: u32)
    requires Asked(p) && IsBest(p, best) && Legal(p, brp, tseg1, tseg2)
    ensures best.Some?
  {
    LegalIsCandidate(p, brp, tseg1, tseg2);
  }

  // ------------------------------------------------------------- when a refusal is right

  // A pair the search accepts though it is not legal: its product wraps, or its first segment.
  predicate Trap(p: Problem, brp: u32, tseg1: u32) { Candidate(p, brp, tseg1) && !Sound(p, brp) }

  ghost predicate SomeTrap(p: Problem) { exists brp: u32, tseg1: u32 :: Trap(p, brp, tseg1) }

  /** The solver answers when and only when a triple is legal, exactly for those inputs that have a
      legal triple or have no trap. */
  lemma RefusesRightlyIff(p: Problem, best: Option<Timing>)
    requires Asked(p) && IsBest(p, best)
    ensures (best.Some? <==> SomeLegal(p)) <==> (SomeLegal(p) || !SomeTrap(p))
  {
    if SomeLegal(p) {
      var brp: u32, tseg1: u32, tseg2: u32 :| Legal(p, brp, tseg1, tseg2);
      NeverMisses(p, best, brp, tseg1, tseg2);
    } else if best.Some? {
      AcceptedLegalIffSound(p, best.value.brp, best.value.tseg1);
      assert Trap(p, best.value.brp, best.value.tseg1);
    }
  }

  lemma SmallerFits(p: Problem, brp: u32)
    requires Fits(p, p.lim.brpMax) && brp <= p.lim.brpMax
    ensures Fits(p, brp)
  {
    TimesMonotone(brp, p.lim.brpMax, p.bitrate);
  }

  // What the caller can check at once: the largest product, and where the first segment starts.
  predicate Guarded(p: Problem) { Fits(p, p.lim.brpMax) && p.lim.tseg1Min < LAST }

  lemma GuardedHasNoTrap(p: Problem)
    requires Guarded(p)
    ensures !SomeTrap(p)
  {
    if SomeTrap(p) {
      var brp: u32, tseg1: u32 :| Trap(p, brp, tseg1);
      SmallerFits(p, brp);
    }
  }

  // So under that guard the solver refuses exactly when no triple is legal.
  lemma RefusesIffNoneLegal(p: Problem, best: Option<Timing>)
    requires Asked(p) && IsBest(p, best) && Guarded(p)
    ensures best.Some? <==> SomeLegal(p)
  {
    GuardedHasNoTrap(p);
    RefusesRightlyIff(p, best);
  }

  // ------------------------------------------------------------- when an answer is right

  lemma BeatsBothWays(p: Problem, b: u32, t: u32, c: u32, u: u32)
    requires Quanta(p, b) != 0 && Quanta(p, c) != 0
    requires Beats(p, b, t, c, u) && Beats(p, c, u, b, t)
    ensures b == c && t == u
  {
  }

  // An accepted pair with that property ranks before the given one.
  ghost predicate Outranked(p: Problem, good: (u32, u32) -> bool, b: u32, t: u32)
    requires Quanta(p, b) != 0
  {
    exists c: u32, u: u32 :: Candidate(p, c, u) && good(c, u) && Beats(p, c, u, b, t)
  }

  // Every accepted pair without that property ranks behind one with it.
  ghost predicate OthersOutranked(p: Problem, good: (u32, u32) -> bool) {
    forall b: u32, t: u32 | Candidate(p, b, t) && !good(b, t) :: Outranked(p, good, b, t)
  }

  lemma LeaderIsGood(p: Problem, best: Option<Timing>, good: (u32, u32) -> bool)
    requires Asked(p) && IsBest(p, best) && best.Some?
    ensures good(best.value.brp, best.value.tseg1) <==> OthersOutranked(p, good)
  {
    var c, u := best.value.brp, best.value.tseg1;
    if good(c, u) {
      forall b: u32, t: u32 | Candidate(p, b, t) && !good(b, t)
        ensures Outranked(p, good, b, t)
      {
        assert Candidate(p, c, u) && good(c, u) && Beats(p, c, u, b, t);
      }
    } else if OthersOutranked(p, good) {
      assert Outranked(p, good, c, u);
      var d: u32, v: u32 :| Candidate(p, d, v) && good(d, v) && Beats(p, d, v, c, u);
      BeatsBothWays(p, c, u, d, v);
    }
  }

  /** The answer has exactly the requested bitrate for those inputs, and only those, for which every
      accepted pair whose product wraps ranks behind an accepted pair whose product fits. */
  lemma AnswerExactIff(p: Problem, best: Option<Timing>)
    requires Asked(p) && IsBest(p, best) && best.Some?
    ensures Exact(p, best.value.brp, best.value.totalTq) <==> OthersOutranked(p, (b: u32, t: u32) => Fits(p, b))
  {
    AcceptedExactIffFits(p, best.value.brp, best.value.tseg1);
    LeaderIsGood(p, best, (b: u32, t: u32) => Fits(p, b));
  }

  ghost predicate TrapsOutranked(p: Problem) { OthersOutranked(p, (b: u32, t: u32) => Sound(p, b)) }

  /** And it is legal exactly when every trap ranks behind an accepted pair that is none. */
  lemma AnswerLegalIff(p: Problem, best: Option<Timing>)
    requires Asked(p) && IsBest(p, best) && best.Some?
    ensures Legal(p, best.value.brp, best.value.tseg1, best.value.tseg2) <==> TrapsOutranked(p)
  {
    AcceptedLegalIffSound(p, best.value.brp, best.value.tseg1);
    LeaderIsGood(p, best, (b: u32, t: u32) => Sound(p, b));
  }

  lemma GuardedOutranks(p: Problem)
    requires Guarded(p)
    ensures TrapsOutranked(p)
  {
    GuardedHasNoTrap(p);
    forall b: u32, t: u32 | Candidate(p, b, t)
      ensures Sound(p, b)
    {
      assert !Trap(p, b, t);
    }
  }

  const WRAPPED: Problem := Problem(20, 1431655766, 875, BXCAN)

  /** An input with a trap and no legal triple: a clock of 20 Hz, a bitrate of 1431655766 bit/s and
      the default limits. The product for prescaler 3 wraps to 2. */
  lemma WrappedAnswer(best: Option<Timing>)
    requires IsBest(WRAPPED, best)
    ensures best.Some? && !SomeLegal(WRAPPED)
    ensures !Exact(WRAPPED, best.value.brp, best.value.totalTq)
  {
    assert Divisor(WRAPPED, 3) == 2;
    assert Quanta(WRAPPED, 3) == 10;
    assert Candidate(WRAPPED, 3, 4);
    forall brp: u32, tq: nat
      ensures !Exact(WRAPPED, brp, tq)
    {
      NothingExact(brp, tq);
    }
  }

  lemma NothingExact(brp: u32, tq: nat)
    ensures !Exact(WRAPPED, brp, tq)
  {
    if Exact(WRAPPED, brp, tq) {
      DivideBack(brp * WRAPPED.bitrate, tq, 20);
      assert false;
    }
  }

  const LATE: Problem := Problem(20, 1, 0, Limits(1, 1, LAST, LAST, 1, 20, 4, 1, 25))

  lemma LateFirst()
    ensures Quanta(LATE, 1) == 20 && Candidate(LATE, 1, LAST)
    ensures SamplePoint(LAST, 20) == 0 && Second(20, LAST) == 20
  {
  }

  lemma LateOthers(brp: u32, t: u32)
    requires Candidate(LATE, brp, t) && t != LAST
    ensures brp == 1 && Error(LATE, t, 20) > 0
  {
    LateFirst();
    assert SamplePoint(t, 20) == 50 * (1 + t);
  }

  /** And an input where the first segment is the trap: both its limits are the largest number, to which
      one is added, so it counts as no quanta at all and the sample point as 0. */
  lemma WrappedSegment(best: Option<Timing>)
    requires IsBest(LATE, best)
    ensures best.Some? && best.value.tseg1 == LAST && best.value.tseg2 == 20 && best.value.samplePoint == 0
    ensures !Legal(LATE, best.value.brp, best.value.tseg1, best.value.tseg2)
  {
    LateFirst();
    forall brp: u32, t: u32 | Candidate(LATE, brp, t) && t != LAST
      ensures brp == 1 && Error(LATE, t, 20) > 0
    {
      LateOthers(brp, t);
    }
  }

  // ------------------------------------------------------------- prescalers and quanta

  lemma ProductMonotone(b: nat, c: nat, x: nat, y: nat)
    requires b < c && x <= y && y > 0
    ensures b * x < c * y
  {
    assert b * x <= b * y;
    assert b * y < c * y;
  }

  lemma SameProduct(b: nat, c: nat, x: nat, y: nat)
    requires b * x == c * y && b * x > 0 && b < c
    ensures x > y
  {
    PositiveFactors(c, y);
    if x <= y {
      ProductMonotone(b, c, x, y);
    }
  }

  /** Among legal triples the quanta strictly fall as the prescaler rises, so scanning prescalers
      upwards meets the finer divisions first. */
  lemma MorePrescalerFewerQuanta(p: Problem, b: u32, x: nat, c: u32, y: nat)
    requires Asked(p) && Exact(p, b, x) && Exact(p, c, y) && b < c
    ensures x > y
  {
    SameProduct(b * p.bitrate, c * p.bitrate, x, y);
  }

  lemma SameQuantaSamePrescaler(p: Problem, b: u32, c: u32, tq: nat)
    requires Asked(p) && Exact(p, b, tq) && Exact(p, c, tq)
    ensures b == c
  {
    if b < c {
      MorePrescalerFewerQuanta(p, b, tq, c, tq);
    } else if c < b {
      MorePrescalerFewerQuanta(p, c, tq, b, tq);
    }
  }

  // ------------------------------------------------------------- the reported rate and jump width

  lemma ReportedRate(p: Problem, brp: u32, tq: nat)
    requires Asked(p) && Exact(p, brp, tq)
    ensures 0 < brp * tq < 0x1_0000_0000 && p.clock / (brp * tq) == p.bitrate
  {
    assert (brp * tq) * p.bitrate == (brp * p.bitrate) * tq;
    DivideBack(brp * tq, p.bitrate, p.clock);
  }

  lemma RateOf(x: nat)
    requires x < 0x1_0000_0000
    ensures Wrap32(x) == x
  {
  }

  lemma RateField(p: Problem, t: Timing, x: nat)
    requires Asked(p) && Candidate(p, t.brp, t.tseg1) && t == Filled(p, t.brp, t.tseg1)
    requires x == t.brp * t.totalTq && 0 < x < 0x1_0000_0000 && p.clock / x == p.bitrate
    ensures t.bitrate == p.bitrate
  {
    RateOf(x);
  }

  /** An exact answer reports the requested bitrate. */
  lemma AnswerRate(p: Problem, best: Option<Timing>)
    requires Asked(p) && IsBest(p, best) && best.Some?
    requires Exact(p, best.value.brp, best.value.totalTq)
    ensures best.value.bitrate == p.bitrate && best.value.errorPpm == 0
  {
    ReportedRate(p, best.value.brp, best.value.totalTq);
    RateField(p, best.value, best.value.brp * best.value.totalTq);
  }

  // Within both segments and the limit.
  predicate JumpFits(lim: Limits, t: Timing, s: nat) { s <= t.tseg1 && s <= t.tseg2 && s <= lim.sjwMax }

  /** The jump width of every answer is the largest that fits into both segments and its limit, and
      at least 1; so it fits exactly when the first segment and the limit are at least 1. */
  lemma AnswerJumpWidth(p: Problem, best: Option<Timing>)
    requires Asked(p) && IsBest(p, best) && best.Some?
    ensures var t := best.value;
            && t.sjw >= 1
            && (forall s: nat | JumpFits(p.lim, t, s) :: s <= t.sjw)
            && (JumpFits(p.lim, t, t.sjw) <==> t.tseg1 >= 1 && p.lim.sjwMax >= 1)
  {
  }
}
