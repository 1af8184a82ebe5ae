/** Whether the answer's sample point is the best there is: the ranking compares sample points in
    32-bit permille, rounded down; here they are compared in true arithmetic. */
module BitTimingRanking {
  import opened Arithmetic
  import opened Words
  import opened BitTiming
  import opened BitTimingExact

  // The true sample point in permille, rounded down, and its distance from the target.
  function TrueSample(tseg1: nat, tq: nat): nat
    requires tq > 0
  {
    1000 * (1 + tseg1) / tq
  }

  function Distance(a: nat, b: nat): nat { if a > b then a - b else b - a }

  function TrueError(p: Problem, tseg1: nat, tq: nat): nat
    requires tq > 0
  {
    Distance(TrueSample(tseg1, tq), p.target)
  }

  // ------------------------------------------------------------- when the 32-bit sample point is true

  predicate SampleFits(tseg1: u32) { tseg1 < LAST && 1000 * (1 + tseg1) < 0x1_0000_0000 }

  lemma NoWrap(x: nat)
    requires x < 0x1_0000_0000
    ensures Wrap32(x) == x
  {
  }

  lemma LessThanOneTurn(x: nat, w: nat, tq: nat)
    requires tq > 0 && w + tq <= x
    ensures w / tq < x / tq
  {
    var q := w / tq;
    assert q * tq <= w;
    assert (q + 1) * tq == q * tq + tq;
    QuotientAtLeast(q + 1, tq, x);
  }

  /** The 32-bit sample point is the true one exactly when 1000 times its numerator fits: a wrap
      always makes it smaller. */
  lemma SampleTrueIffFits(tseg1: u32, tq: u32)
    requires Place(tseg1) < tq
    ensures SamplePoint(tseg1, tq) <= TrueSample(tseg1, tq)
    ensures SamplePoint(tseg1, tq) == TrueSample(tseg1, tq) <==> SampleFits(tseg1)
  {
    var x := 1000 * (1 + tseg1);
    if SampleFits(tseg1) {
      NoWrap(x);
    } else if tseg1 == LAST {
      LessThanOneTurn(x, 0, tq);
      assert SamplePoint(tseg1, tq) == 0 / tq == 0;
    } else {
      assert Wrap32(x) + tq <= x;
      LessThanOneTurn(x, Wrap32(x), tq);
    }
  }

  /** So the reported sample point is the true one exactly then. */
  lemma AnswerSample(p: Problem, best: Option<Timing>)
    requires Asked(p) && IsBest(p, best) && best.Some?
    ensures var t := best.value;
            t.totalTq > 0 && (t.samplePoint == TrueSample(t.tseg1, t.totalTq) <==> SampleFits(t.tseg1))
  {
    SampleTrueIffFits(best.value.tseg1, best.value.totalTq);
  }

  // ------------------------------------------------------------- optimality

  // Better by the true sample point, then by more quanta, then by coming first.
  predicate TrulyBeats(p: Problem, b: u32, t: u32, c: u32, u: u32)
    requires Quanta(p, b) != 0 && Quanta(p, c) != 0
  {
    var e, f := TrueError(p, t, Quanta(p, b)), TrueError(p, u, Quanta(p, c));
    || e < f
    || (e == f && Quanta(p, b) > Quanta(p, c))
    || (e == f && Quanta(p, b) == Quanta(p, c) && Before(b, t, c, Place(u) + 1))
  }

  ghost predicate Leads(p: Problem, c: u32, u: u32) {
    Candidate(p, c, u) && forall b: u32, t: u32 | Candidate(p, b, t) :: Beats(p, c, u, b, t)
  }

  ghost predicate TrulyLeads(p: Problem, c: u32, u: u32) {
    Candidate(p, c, u) && forall b: u32, t: u32 | Candidate(p, b, t) :: TrulyBeats(p, c, u, b, t)
  }

  /** The answer is the truly best of all accepted pairs exactly when one pair leads both rankings. */
  lemma TrulyBestIff(p: Problem, best: Option<Timing>)
    requires Asked(p) && IsBest(p, best) && best.Some?
    ensures TrulyLeads(p, best.value.brp, best.value.tseg1) <==>
            exists c: u32, u: u32 :: Leads(p, c, u) && TrulyLeads(p, c, u)
  {
    var b, t := best.value.brp, best.value.tseg1;
    assert Leads(p, b, t);
    if exists c: u32, u: u32 :: Leads(p, c, u) && TrulyLeads(p, c, u) {
      var c: u32, u: u32 :| Leads(p, c, u) && TrulyLeads(p, c, u);
      BeatsBothWays(p, b, t, c, u);
    }
  }

  lemma TrulyBeatsIsTransitive(p: Problem, b: u32, t: u32, c: u32, u: u32, d: u32, v: u32)
    requires Quanta(p, b) != 0 && Quanta(p, c) != 0 && Quanta(p, d) != 0
    requires TrulyBeats(p, b, t, c, u) && TrulyBeats(p, c, u, d, v)
    ensures TrulyBeats(p, b, t, d, v)
  {
  }

  // An accepted pair whose sample point is computed without a wrap ranks before the given one, in
  // each of the two rankings.
  ghost predicate BehindFitting(p: Problem, b: u32, t: u32)
    requires Quanta(p, b) != 0
  {
    && (exists c: u32, u: u32 :: Candidate(p, c, u) && SampleFits(u) && Beats(p, c, u, b, t))
    && (exists c: u32, u: u32 :: Candidate(p, c, u) && SampleFits(u) && TrulyBeats(p, c, u, b, t))
  }

  lemma FittingLeader(p: Problem, b: u32, t: u32, c: u32, u: u32)
    requires Leads(p, b, t) && SampleFits(t) && Candidate(p, c, u) && (!SampleFits(u) ==> BehindFitting(p, c, u))
    ensures TrulyBeats(p, b, t, c, u)
  {
    if SampleFits(u) {
      SameRanking(p, b, t, c, u);
    } else {
      var d: u32, v: u32 :| Candidate(p, d, v) && SampleFits(v) && TrulyBeats(p, d, v, c, u);
      SameRanking(p, b, t, d, v);
      TrulyBeatsIsTransitive(p, b, t, d, v, c, u);
    }
  }

  /** The answer is the truly best of all accepted pairs, and its reported sample point the true one,
      exactly for those inputs on which every accepted pair whose sample point wraps ranks, in both
      rankings, behind pairs whose sample point fits. */
  lemma BestAndTrueIff(p: Problem, best: Option<Timing>)
    requires Asked(p) && IsBest(p, best) && best.Some?
    ensures TrulyLeads(p, best.value.brp, best.value.tseg1) && SampleFits(best.value.tseg1) <==>
            forall b: u32, t: u32 | Candidate(p, b, t) && !SampleFits(t) :: BehindFitting(p, b, t)
  {
    var b, t := best.value.brp, best.value.tseg1;
    assert Leads(p, b, t);
    if TrulyLeads(p, b, t) && SampleFits(t) {
      forall c: u32, u: u32 | Candidate(p, c, u) && !SampleFits(u)
        ensures BehindFitting(p, c, u)
      {
        assert Candidate(p, b, t) && SampleFits(t) && Beats(p, b, t, c, u) && TrulyBeats(p, b, t, c, u);
      }
    } else if forall c: u32, u: u32 | Candidate(p, c, u) && !SampleFits(u) :: BehindFitting(p, c, u) {
      if !SampleFits(t) {
        var c: u32, u: u32 :| Candidate(p, c, u) && SampleFits(u) && Beats(p, c, u, b, t);
        BeatsBothWays(p, b, t, c, u);
      } else {
        forall c: u32, u: u32 | Candidate(p, c, u)
          ensures TrulyBeats(p, b, t, c, u)
        {
          FittingLeader(p, b, t, c, u);
        }
      }
    }
  }

  // The sample points of all accepted pairs are computed without a wrap.
  ghost predicate SamplesFit(p: Problem) { forall b: u32, t: u32 | Candidate(p, b, t) :: SampleFits(t) }

  lemma SameRanking(p: Problem, b: u32, t: u32, c: u32, u: u32)
    requires Candidate(p, b, t) && Candidate(p, c, u) && SampleFits(t) && SampleFits(u)
    ensures Beats(p, b, t, c, u) <==> TrulyBeats(p, b, t, c, u)
  {
    SampleTrueIffFits(t, Quanta(p, b));
    SampleTrueIffFits(u, Quanta(p, c));
  }

  // Which it does when all samples are computed without a wrap.
  lemma FittingSamplesLead(p: Problem, best: Option<Timing>)
    requires Asked(p) && IsBest(p, best) && best.Some? && SamplesFit(p)
    ensures TrulyLeads(p, best.value.brp, best.value.tseg1)
  {
    forall b: u32, t: u32 | Candidate(p, b, t)
      ensures TrulyBeats(p, best.value.brp, best.value.tseg1, b, t)
    {
      SameRanking(p, best.value.brp, best.value.tseg1, b, t);
    }
  }

  // What the caller can check at once.
  predicate SampleGuarded(p: Problem) { 1000 * p.lim.tqMax < 0x1_0000_0000 && p.lim.tseg1Min < LAST }

  lemma GuardedSamplesFit(p: Problem)
    requires SampleGuarded(p)
    ensures SamplesFit(p)
  {
  }

  // In order of preference: the nearer true sample point, more quanta, the smaller first segment.
  predicate Preferred(p: Problem, t: Timing, tseg1: u32, tseg2: u32)
    requires t.totalTq > 0
  {
    var e, f := TrueError(p, t.tseg1, t.totalTq), TrueError(p, tseg1, 1 + tseg1 + tseg2);
    || e < f
    || (e == f && t.totalTq > 1 + tseg1 + tseg2)
    || (e == f && t.totalTq == 1 + tseg1 + tseg2 && t.tseg1 <= tseg1)
  }

  /** When every trap is outranked and no sample point wraps, the answer is legal and preferred, in
      true arithmetic, to every legal triple. */
  lemma AnswerIsOptimal(p: Problem, best: Option<Timing>, brp: u32, tseg1: u32, tseg2: u32)
    requires Asked(p) && IsBest(p, best) && TrapsOutranked(p) && SamplesFit(p) && Legal(p, brp, tseg1, tseg2)
    ensures best.Some?
    ensures var t := best.value;
            Legal(p, t.brp, t.tseg1, t.tseg2) && t.totalTq == 1 + t.tseg1 + t.tseg2 && Preferred(p, t, tseg1, tseg2)
  {
    LegalIsCandidate(p, brp, tseg1, tseg2);
    AnswerLegalIff(p, best);
    var t := best.value;
    LegalIsCandidate(p, t.brp, t.tseg1, t.tseg2);
    FittingSamplesLead(p, best);
    if t.totalTq == 1 + tseg1 + tseg2 {
      SameQuantaSamePrescaler(p, t.brp, brp, t.totalTq);
    }
  }

  // So it is under the two guards.
  lemma GuardedAnswerIsOptimal(p: Problem, best: Option<Timing>, brp: u32, tseg1: u32, tseg2: u32)
    requires Asked(p) && IsBest(p, best) && Guarded(p) && SampleGuarded(p) && Legal(p, brp, tseg1, tseg2)
    ensures best.Some?
    ensures var t := best.value;
            Legal(p, t.brp, t.tseg1, t.tseg2) && t.totalTq > 0 && Preferred(p, t, tseg1, tseg2)
  {
    GuardedOutranks(p);
    GuardedSamplesFit(p);
    AnswerIsOptimal(p, best, brp, tseg1, tseg2);
  }

  // ------------------------------------------------------------- a wrapped sample point

  const LARGE: Problem :=
    Problem(8_000_000, 1, 1000, Limits(1, 1, 1, 0xFFFF_FFF0, 1, 0xFFFF_FFF0, 4, 1, 0xFFFF_FFF0))

  lemma LargeSample(t: u32)
    requires 1 + t < 8_000_000
    ensures SamplePoint(t, 8_000_000) <= 536
    ensures SamplePoint(t, 8_000_000) == 536 ==> TrueSample(t, 8_000_000) == 536
  {
  }

  lemma LargePairs()
    ensures Quanta(LARGE, 1) == 8_000_000
    ensures Candidate(LARGE, 1, 4_294_966) && SamplePoint(4_294_966, 8_000_000) == 536
    ensures SamplePoint(7_999_998, 8_000_000) == 463
  {
  }

  /** Without that the nearest sample point can be passed over: at 8 MHz and 1 bit/s, with one
      prescaler and wide segments, the split with 999 permille is legal, its 32-bit sample point
      reads 463, and the answer has 536 where 1000 is asked for. */
  lemma WrappedSample(best: Option<Timing>)
    requires IsBest(LARGE, best)
    ensures Legal(LARGE, 1, 7_999_998, 1) && TrueError(LARGE, 7_999_998, 8_000_000) == 1
    ensures SamplePoint(7_999_998, 8_000_000) == 463
    ensures best.Some? && best.value.totalTq == 8_000_000
    ensures TrueError(LARGE, best.value.tseg1, best.value.totalTq) == 464
  {
    LargePairs();
    LargeSample(best.value.tseg1);
  }

  // ------------------------------------------------------------- rounding down

  // The distance from the target without rounding.
  function RealError(p: Problem, tseg1: nat, tq: nat): real
    requires tq > 0
  {
    var x := (1000 * (1 + tseg1)) as real / tq as real - p.target as real;
    if x >= 0.0 then x else -x
  }

  lemma {:induction false} RealProduct(a: nat, b: nat)
    ensures (a * b) as real == a as real * b as real
  {
    if b > 0 {
      RealProduct(a, b - 1);
      assert a * b == a * (b - 1) + a;
    }
  }

  lemma Scales(x: real, y: real, q: real)
    requires q > 0.0
    ensures x <= y ==> x * q <= y * q
    ensures x < y ==> x * q < y * q
  {
  }

  lemma DivisionUndone(n: real, q: real)
    requires q > 0.0
    ensures n / q * q == n
  {
  }

  lemma Between(f: real, g: real, n: real, q: real)
    requires q > 0.0 && f * q <= n < g * q
    ensures f <= n / q < g
  {
    DivisionUndone(n, q);
    Scales(n / q, f, q);
    Scales(g, n / q, q);
  }

  lemma Floored(n: nat, q: nat, f: nat)
    requires q > 0 && f == n / q
    ensures f * q <= n < (f + 1) * q
  {
  }

  lemma FloorBounds(n: nat, q: nat)
    requires q > 0
    ensures (n / q) as real <= n as real / q as real < (n / q) as real + 1.0
  {
    var f := n / q;
    Floored(n, q, f);
    RealProduct(f, q);
    RealProduct(f + 1, q);
    Between(f as real, (f + 1) as real, n as real, q as real);
  }

  predicate AtOrAbove(p: Problem, tseg1: nat, tq: nat)
    requires tq > 0
  {
    TrueSample(tseg1, tq) >= p.target
  }

  lemma RealAgainstTrue(p: Problem, tseg1: nat, tq: nat)
    requires tq > 0
    ensures var e, r := TrueError(p, tseg1, tq) as real, RealError(p, tseg1, tq);
            if AtOrAbove(p, tseg1, tq) then e <= r < e + 1.0 else e - 1.0 < r <= e
  {
    FloorBounds(1000 * (1 + tseg1), tq);
  }

  /** Rounding costs less than one permille against any legal triple, except when the two tie, the
      answer lying above the target and the other below; then it costs less than two. */
  lemma RoundingCost(p: Problem, best: Option<Timing>, brp: u32, tseg1: u32, tseg2: u32)
    requires Asked(p) && IsBest(p, best) && TrapsOutranked(p) && SamplesFit(p) && Legal(p, brp, tseg1, tseg2)
    ensures best.Some? && best.value.totalTq > 0
    ensures var t, tq := best.value, 1 + tseg1 + tseg2;
            var mine, other := RealError(p, t.tseg1, t.totalTq), RealError(p, tseg1, tq);
            && mine < other + 2.0
            && (mine >= other + 1.0 ==>
                  && TrueError(p, t.tseg1, t.totalTq) == TrueError(p, tseg1, tq)
                  && AtOrAbove(p, t.tseg1, t.totalTq) && !AtOrAbove(p, tseg1, tq))
  {
    AnswerIsOptimal(p, best, brp, tseg1, tseg2);
    RealAgainstTrue(p, best.value.tseg1, best.value.totalTq);
    RealAgainstTrue(p, tseg1, 1 + tseg1 + tseg2);
  }

  // ------------------------------------------------------------- when the answer is the nearest

  // No accepted pair has a sample point nearer to the target, rounding nothing.
  ghost predicate Nearest(p: Problem, c: u32, u: u32)
    requires Quanta(p, c) != 0
  {
    forall b: u32, t: u32 | Candidate(p, b, t) :: RealError(p, u, Quanta(p, c)) <= RealError(p, t, Quanta(p, b))
  }

  ghost predicate IsNearest(p: Problem, c: u32, u: u32) { Quanta(p, c) != 0 && Nearest(p, c, u) }

  /** The answer is nearest to the target for those inputs, and only those, for which every accepted
      pair that is not nearest ranks behind one that is. */
  lemma NearestIff(p: Problem, best: Option<Timing>)
    requires Asked(p) && IsBest(p, best) && best.Some?
    ensures IsNearest(p, best.value.brp, best.value.tseg1) <==>
            OthersOutranked(p, (c: u32, u: u32) => IsNearest(p, c, u))
  {
    LeaderIsGood(p, best, (c: u32, u: u32) => IsNearest(p, c, u));
  }

  // Nearest of all legal triples, and of those that are equally near first in quanta, then in the
  // smaller first segment.
  ghost predicate BestLegal(p: Problem, b: u32, t: u32) {
    && Sound(p, b) && Candidate(p, b, t)
    && forall c: u32, u: u32, v: u32 | Legal(p, c, u, v) :: AtLeastAsGood(p, t, Quanta(p, b), u, 1 + u + v)
  }

  predicate AtLeastAsGood(p: Problem, t: u32, tq: nat, u: u32, other: nat)
    requires tq > 0 && other > 0
  {
    var e, f := RealError(p, t, tq), RealError(p, u, other);
    || e < f
    || (e == f && tq > other)
    || (e == f && tq == other && t <= u)
  }

  /** The answer is legal and the best of all legal triples by its true distance, unrounded, then
      quanta, then first segment, exactly when every accepted pair that is not ranks behind one that
      is. */
  lemma BestLegalIff(p: Problem, best: Option<Timing>)
    requires Asked(p) && IsBest(p, best) && best.Some?
    ensures Legal(p, best.value.brp, best.value.tseg1, best.value.tseg2)
            && BestLegal(p, best.value.brp, best.value.tseg1) <==>
            OthersOutranked(p, (b: u32, t: u32) => BestLegal(p, b, t))
  {
    AcceptedLegalIffSound(p, best.value.brp, best.value.tseg1);
    LeaderIsGood(p, best, (b: u32, t: u32) => BestLegal(p, b, t));
  }

  // What a caller can check: nothing is rounded.
  ghost predicate NothingRounded(p: Problem) {
    forall b: u32, t: u32 | Candidate(p, b, t) :: 1000 * (1 + t) % Quanta(p, b) == 0
  }

  lemma ExactQuotient(n: nat, q: nat)
    requires q > 0 && n % q == 0
    ensures n as real / q as real == (n / q) as real
  {
    var f := n / q;
    assert f * q == n;
    RealProduct(f, q);
    DivisionUndone(n as real, q as real);
    SameQuotient(n as real / q as real, f as real, q as real);
  }

  lemma SameQuotient(x: real, y: real, q: real)
    requires q > 0.0 && x * q == y * q
    ensures x == y
  {
    Scales(x, y, q);
    Scales(y, x, q);
  }

  lemma UnroundedError(p: Problem, t: nat, tq: nat)
    requires tq > 0 && 1000 * (1 + t) % tq == 0
    ensures RealError(p, t, tq) == TrueError(p, t, tq) as real
  {
    ExactQuotient(1000 * (1 + t), tq);
  }

  /** So the answer is nearest when nothing is rounded and no sample point wraps. */
  lemma UnroundedIsNearest(p: Problem, best: Option<Timing>)
    requires Asked(p) && IsBest(p, best) && best.Some? && SamplesFit(p) && NothingRounded(p)
    ensures IsNearest(p, best.value.brp, best.value.tseg1)
  {
    var c, u := best.value.brp, best.value.tseg1;
    FittingSamplesLead(p, best);
    UnroundedError(p, u, Quanta(p, c));
    forall b: u32, t: u32 | Candidate(p, b, t)
      ensures RealError(p, u, Quanta(p, c)) <= RealError(p, t, Quanta(p, b))
    {
      UnroundedError(p, t, Quanta(p, b));
    }
  }

  const ODD_TARGET: Problem := Problem(45_000_000, 500_000, 877, BXCAN)

  lemma TenthsOfNinety(brp: u32)
    requires Prescales(ODD_TARGET, brp)
    ensures (brp == 5 && Quanta(ODD_TARGET, brp) == 18) || (brp == 6 && Quanta(ODD_TARGET, brp) == 15)
            || (brp == 9 && Quanta(ODD_TARGET, brp) == 10) || (brp == 10 && Quanta(ODD_TARGET, brp) == 9)
  {
    var q := Quanta(ODD_TARGET, brp);
    NoWrap(brp * 500_000);
    WholeQuotient(45_000_000, brp * 500_000);
    assert q * brp == 90;
    assert brp <= 11 by {
      TimesMonotone(8, q, brp);
    }
    assert brp >= 3 by {
      TimesMonotone(q, 25, brp);
    }
  }

  lemma OddQuanta()
    ensures Quanta(ODD_TARGET, 5) == 18 && Quanta(ODD_TARGET, 6) == 15
  {
  }

  lemma SmallSample(t: u32, tq: u32)
    requires t <= 16 && tq > 0
    ensures SamplePoint(t, tq) == 1000 * (1 + t) / tq
  {
    NoWrap(1000 * (1 + t));
  }

  lemma OddErrors18(t: u32)
    requires t <= 16
    ensures Error(ODD_TARGET, 15, 18) == 11 && (Error(ODD_TARGET, t, 18) <= 11 ==> t == 15)
  {
    SmallSample(t, 18);
    SmallSample(15, 18);
  }

  lemma OddErrors15(t: u32)
    requires t <= 16
    ensures Error(ODD_TARGET, t, 15) >= 11
  {
    SmallSample(t, 15);
  }

  lemma OddErrors10(t: u32)
    requires t <= 16
    ensures Error(ODD_TARGET, t, 10) >= 23
  {
    SmallSample(t, 10);
  }

  lemma OddErrors9(t: u32)
    requires t <= 16
    ensures Error(ODD_TARGET, t, 9) >= 11
  {
    SmallSample(t, 9);
  }

  lemma OddRealErrors()
    ensures RealError(ODD_TARGET, 15, 18) > RealError(ODD_TARGET, 12, 15) + 1.5
  {
  }

  /** With the default limits too: at 45 MHz, 500 kbit/s and 877 permille the answer has 888.9
      permille where 866.7 is nearer by more than 1.5. */
  lemma NotNearest(best: Option<Timing>)
    requires IsBest(ODD_TARGET, best)
    ensures best.Some? && best.value.brp == 5 && best.value.tseg1 == 15
    ensures Legal(ODD_TARGET, 6, 12, 2)
    ensures RealError(ODD_TARGET, 15, 18) > RealError(ODD_TARGET, 12, 15) + 1.5
    ensures !IsNearest(ODD_TARGET, best.value.brp, best.value.tseg1)
  {
    OddQuanta();
    assert Candidate(ODD_TARGET, 5, 15) && Candidate(ODD_TARGET, 6, 12);
    TenthsOfNinety(best.value.brp);
    OddErrors18(best.value.tseg1);
    OddErrors15(best.value.tseg1);
    OddErrors10(best.value.tseg1);
    OddErrors9(best.value.tseg1);
    OddRealErrors();
  }

  // ------------------------------------------------------------- what rounding costs at most

  const UNEVEN: Problem := Problem(30000, 1, 500, Limits(2, 3, 4998, 7528, 5001, 7471, 4, 1, 20000))

  lemma UnevenQuanta()
    ensures Quanta(UNEVEN, 2) == 15000 && Quanta(UNEVEN, 3) == 10000
    ensures SamplePoint(7528, 15000) == 501 && SamplePoint(4998, 10000) == 499
  {
  }

  lemma UnevenPairs(b: u32, t: u32)
    requires Candidate(UNEVEN, b, t)
    ensures (b == 2 && t == 7528) || (b == 3 && t == 4998)
  {
    UnevenQuanta();
  }

  lemma UnevenErrors()
    ensures RealError(UNEVEN, 7528, 15000) > RealError(UNEVEN, 4998, 10000) + 1.8
  {
  }

  /** And it can cost more than one: 501.9 permille is chosen over 499.9 where 500 is asked for. */
  lemma RoundingCostsMoreThanOne(best: Option<Timing>)
    requires IsBest(UNEVEN, best)
    ensures Legal(UNEVEN, 3, 4998, 5001)
    ensures best.Some? && best.value.tseg1 == 7528 && best.value.totalTq == 15000
    ensures RealError(UNEVEN, 7528, 15000) > RealError(UNEVEN, 4998, 10000) + 1.8
  {
    UnevenQuanta();
    assert Candidate(UNEVEN, 2, 7528);
    UnevenPairs(best.value.brp, best.value.tseg1);
    UnevenErrors();
  }
}
