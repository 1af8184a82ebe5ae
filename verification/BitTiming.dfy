/** The CAN bit-timing solver: a search over prescalers and sample-point splits, in 32-bit
    arithmetic, compared with a brute-force reading of what it promises. */
module BitTiming {
  import opened Words

  datatype Limits = Limits(
    brpMin: u32, brpMax: u32,
    tseg1Min: u32, tseg1Max: u32,
    tseg2Min: u32, tseg2Max: u32,
    sjwMax: u32,
    tqMin: u32, tqMax: u32)

  const BXCAN: Limits := Limits(1, 1024, 1, 16, 1, 8, 4, 8, 25)

  datatype Timing = Timing(
    brp: u32, tseg1: u32, tseg2: u32, sjw: u32, totalTq: u32,
    bitrate: u32, samplePoint: u32, errorPpm: int)

  datatype Problem = Problem(clock: u32, bitrate: u32, target: u32, lim: Limits)

  function AbsDiff(a: u32, b: u32): (d: u32)
    ensures a == b + d || b == a + d
  {
    if a > b then a - b else b - a
  }

  // ------------------------------------------------------------- what the loops accept

  // The 32-bit product: it wraps.
  function Divisor(p: Problem, brp: u32): u32 { Wrap32(brp * p.bitrate) }

  predicate Divides(p: Problem, brp: u32) { Divisor(p, brp) != 0 && p.clock % Divisor(p, brp) == 0 }

  function Quanta(p: Problem, brp: u32): u32 {
    if Divisor(p, brp) == 0 then 0 else p.clock / Divisor(p, brp)
  }

  predicate Prescales(p: Problem, brp: u32) {
    && p.lim.brpMin <= brp <= p.lim.brpMax
    && Divides(p, brp)
    && p.lim.tqMin <= Quanta(p, brp) <= p.lim.tqMax
  }

  const LAST: u32 := 0xFFFF_FFFF

  // Where the inner loop meets a split, counted in `1u + tseg1`, which is 0 for the largest
  // number.
  function Place(tseg1: u32): (k: u32)
    ensures k == Wrap32(1 + tseg1)
  {
    if tseg1 == LAST then 0 else 1 + tseg1
  }

  // The splits the inner loop meets, but for its break. When both limits are the largest number
  // it starts there, wraps, and goes on from 0.
  predicate Scanned(lim: Limits, tseg1: u32) {
    if lim.tseg1Min == LAST then lim.tseg1Max == LAST else lim.tseg1Min <= tseg1 <= lim.tseg1Max && tseg1 < LAST
  }

  // `total_tq - 1u - tseg1`.
  function Second(tq: u32, tseg1: u32): (k: u32)
    requires Place(tseg1) < tq
    ensures k == Wrap32(tq - 1 - tseg1)
  {
    tq - Place(tseg1)
  }

  predicate Candidate(p: Problem, brp: u32, tseg1: u32) {
    && Prescales(p, brp)
    && Scanned(p.lim, tseg1)
    && Place(tseg1) < Quanta(p, brp)
    && p.lim.tseg2Min <= Second(Quanta(p, brp), tseg1) <= p.lim.tseg2Max
  }

  // The sample point in permille, in 32-bit arithmetic.
  function SamplePoint(tseg1: u32, tq: u32): u32
    requires tq != 0
  {
    Wrap32(Place(tseg1) * 1000) / tq
  }

  function Error(p: Problem, tseg1: u32, tq: u32): u32
    requires tq != 0
  {
    AbsDiff(SamplePoint(tseg1, tq), p.target)
  }

  function Min(a: u32, b: u32): u32 { if a < b then a else b }

  function Sjw(lim: Limits, tseg1: u32, tseg2: u32): (s: u32)
    ensures 1 <= s
    ensures lim.sjwMax >= 1 && tseg1 >= 1 && tseg2 >= 1 ==> s == Min(Min(tseg2, lim.sjwMax), tseg1)
  {
    var s := Min(Min(tseg2, lim.sjwMax), tseg1);
    if s == 0 then 1 else s
  }

  // The product of a prescaler and its quanta never wraps to zero, though it may wrap.
  lemma QuantaProduct(p: Problem, brp: u32)
    requires p.clock > 0 && Divides(p, brp)
    ensures Quanta(p, brp) > 0 && Wrap32(brp * Quanta(p, brp)) != 0
  {
    var d, q := Divisor(p, brp), Quanta(p, brp);
    WholeQuotient(p.clock, d);
    var w := brp * p.bitrate / 0x1_0000_0000;
    assert brp * p.bitrate == w * 0x1_0000_0000 + d;
    if Wrap32(brp * q) == 0 {
      var k := brp * q / 0x1_0000_0000;
      assert brp * q == k * 0x1_0000_0000;
      Regroup(brp, q, p.bitrate, k, w, d, 0x1_0000_0000);
      MultipleOutside(k * p.bitrate - w * q, 0x1_0000_0000);
    }
  }

  lemma WholeQuotient(a: nat, d: nat)
    requires d > 0 && a % d == 0
    ensures (a / d) * d == a
  {
  }

  lemma Regroup(brp: nat, q: nat, rate: nat, k: nat, w: nat, d: nat, m: nat)
    requires brp * rate == w * m + d && brp * q == k * m
    ensures q * d == (k * rate - w * q) * m
  {
    calc {
      q * d;
      q * (brp * rate) - q * (w * m);
      (brp * q) * rate - (w * q) * m;
      (k * m) * rate - (w * q) * m;
      (k * rate - w * q) * m;
    }
  }

  lemma MultipleOutside(k: int, m: nat)
    ensures k * m <= 0 || k * m >= m
  {
    if k <= 0 {
      assert k * m <= 0;
    } else {
      assert k * m >= m;
    }
  }

  // The timing written for a candidate.
  function Filled(p: Problem, brp: u32, tseg1: u32): Timing
    requires p.clock > 0 && Candidate(p, brp, tseg1)
  {
    var tq := Quanta(p, brp);
    QuantaProduct(p, brp);
    Timing(brp, tseg1, Second(tq, tseg1), Sjw(p.lim, tseg1, Second(tq, tseg1)), tq,
           p.clock / Wrap32(brp * tq), SamplePoint(tseg1, tq), 0)
  }

  // ------------------------------------------------------------- the ranking

  // Scanned earlier: prescalers upwards, splits upwards within one.
  predicate Before(b: u32, t: u32, brp: int, place: int) { b < brp || (b == brp && Place(t) < place) }

  // Better by sample point, then by more quanta, then by coming first.
  predicate Beats(p: Problem, b: u32, t: u32, c: u32, u: u32)
    requires Quanta(p, b) != 0 && Quanta(p, c) != 0
  {
    var e, f := Error(p, t, Quanta(p, b)), Error(p, u, Quanta(p, c));
    || e < f
    || (e == f && Quanta(p, b) > Quanta(p, c))
    || (e == f && Quanta(p, b) == Quanta(p, c) && Before(b, t, c, Place(u) + 1))
  }

  // The best candidate of all scanned before a place, if there is one.
  ghost predicate BestBefore(p: Problem, brp: int, place: int, best: Option<Timing>)
    requires p.clock > 0
  {
    && (best.Some? ==>
          && Candidate(p, best.value.brp, best.value.tseg1)
          && Before(best.value.brp, best.value.tseg1, brp, place)
          && best.value == Filled(p, best.value.brp, best.value.tseg1))
    && (forall b: u32, t: u32 | Candidate(p, b, t) && Before(b, t, brp, place) ::
          best.Some? && Beats(p, best.value.brp, best.value.tseg1, b, t))
  }

  /** What the solver promises: the best of all candidates, or none where there is none. */
  ghost predicate IsBest(p: Problem, best: Option<Timing>)
    requires p.clock > 0
  {
    && (best.Some? ==>
          && Candidate(p, best.value.brp, best.value.tseg1)
          && best.value == Filled(p, best.value.brp, best.value.tseg1))
    && (forall b: u32, t: u32 | Candidate(p, b, t) ::
          best.Some? && Beats(p, best.value.brp, best.value.tseg1, b, t))
  }

  // ------------------------------------------------------------- the search

  lemma SkipPlace(p: Problem, brp: u32, tseg1: u32, best: Option<Timing>)
    requires p.clock > 0 && BestBefore(p, brp, Place(tseg1), best) && !Candidate(p, brp, tseg1)
    ensures BestBefore(p, brp, Place(tseg1) + 1, best)
  {
  }

  lemma KeepBest(p: Problem, brp: u32, tseg1: u32, best: Option<Timing>)
    requires p.clock > 0 && BestBefore(p, brp, Place(tseg1), best) && Candidate(p, brp, tseg1)
    requires best.Some? && Quanta(p, best.value.brp) != 0 && Beats(p, best.value.brp, best.value.tseg1, brp, tseg1)
    ensures BestBefore(p, brp, Place(tseg1) + 1, best)
  {
  }

  lemma BeatsIsTransitive(p: Problem, b: u32, t: u32, c: u32, u: u32, d: u32, v: u32)
    requires Quanta(p, b) != 0 && Quanta(p, c) != 0 && Quanta(p, d) != 0
    requires Beats(p, b, t, c, u) && Beats(p, c, u, d, v)
    ensures Beats(p, b, t, d, v)
  {
  }

  lemma ReplaceBest(p: Problem, brp: u32, tseg1: u32, best: Option<Timing>)
    requires p.clock > 0 && BestBefore(p, brp, Place(tseg1), best) && Candidate(p, brp, tseg1)
    requires best.Some? ==> Quanta(p, best.value.brp) != 0 && Beats(p, brp, tseg1, best.value.brp, best.value.tseg1)
    ensures BestBefore(p, brp, Place(tseg1) + 1, Some(Filled(p, brp, tseg1)))
  {
    forall b: u32, t: u32 | Candidate(p, b, t) && Before(b, t, brp, Place(tseg1) + 1)
      ensures Beats(p, brp, tseg1, b, t)
    {
      if Before(b, t, brp, Place(tseg1)) {
        BeatsIsTransitive(p, brp, tseg1, best.value.brp, best.value.tseg1, b, t);
      }
    }
  }

  method ClampSjw(lim: Limits, tseg1: u32, tseg2: u32) returns (sjw: u32)
    ensures sjw == Sjw(lim, tseg1, tseg2)
  {
    sjw := if tseg2 < lim.sjwMax then tseg2 else lim.sjwMax;
    if sjw > tseg1 {
      sjw := tseg1;
    }
    if sjw == 0 {
      sjw := 1;
    }
  }

  // The fields written for a candidate that ranks best so far.
  method Write(p: Problem, brp: u32, totalTq: u32, tseg1: u32, tseg2: u32, sp: u32) returns (timing: Timing)
    requires p.clock > 0 && Candidate(p, brp, tseg1)
    requires totalTq == Quanta(p, brp) && Place(tseg1) < totalTq
    requires tseg2 == Second(totalTq, tseg1) && sp == SamplePoint(tseg1, totalTq)
    ensures timing == Filled(p, brp, tseg1)
  {
    var sjw := ClampSjw(p.lim, tseg1, tseg2);
    QuantaProduct(p, brp);
    timing := Timing(brp, tseg1, tseg2, sjw, totalTq, p.clock / Wrap32(brp * totalTq), sp, 0);
  }

  // The two locals that hold the rank of the best so far.
  ghost predicate Remembered(p: Problem, best: Option<Timing>, bestErr: u32, bestTq: u32)
    requires p.clock > 0
  {
    match best
    case None => bestErr == 0xFFFF_FFFF && bestTq == 0
    case Some(t) =>
      && Quanta(p, t.brp) != 0
      && bestErr == Error(p, t.tseg1, Quanta(p, t.brp)) && bestTq == Quanta(p, t.brp)
  }

  lemma NotBetter(p: Problem, brp: u32, tseg1: u32, best: Option<Timing>, bestErr: u32, bestTq: u32, tq: u32, err: u32)
    requires p.clock > 0 && BestBefore(p, brp, Place(tseg1), best) && Candidate(p, brp, tseg1)
    requires Remembered(p, best, bestErr, bestTq) && tq == Quanta(p, brp) && err == Error(p, tseg1, tq)
    requires !(err < bestErr || (err == bestErr && tq > bestTq))
    ensures BestBefore(p, brp, Place(tseg1) + 1, best)
  {
    KeepBest(p, brp, tseg1, best);
  }

  lemma IsBetter(p: Problem, brp: u32, tseg1: u32, best: Option<Timing>, bestErr: u32, bestTq: u32, tq: u32, err: u32)
    requires p.clock > 0 && BestBefore(p, brp, Place(tseg1), best) && Candidate(p, brp, tseg1)
    requires Remembered(p, best, bestErr, bestTq) && tq == Quanta(p, brp) && err == Error(p, tseg1, tq)
    requires err < bestErr || (err == bestErr && tq > bestTq)
    ensures BestBefore(p, brp, Place(tseg1) + 1, Some(Filled(p, brp, tseg1)))
    ensures Remembered(p, Some(Filled(p, brp, tseg1)), err, tq)
  {
    ReplaceBest(p, brp, tseg1, best);
  }

  // The sample point of a split and its distance from the target.
  method Judge(p: Problem, tseg1: u32, totalTq: u32) returns (sp: u32, err: u32)
    requires totalTq != 0
    ensures sp == SamplePoint(tseg1, totalTq) && err == Error(p, tseg1, totalTq)
  {
    sp := Wrap32(Wrap32(1 + tseg1) * 1000) / totalTq;
    err := AbsDiff(sp, p.target);
  }

  // One split of a prescaler's quanta, ranked against the best so far.
  method Consider(p: Problem, brp: u32, totalTq: u32, tseg1: u32, bestErr: u32, bestTq: u32, best: Option<Timing>)
    returns (newErr: u32, newTq: u32, newBest: Option<Timing>)
    requires p.clock > 0 && Prescales(p, brp) && totalTq == Quanta(p, brp)
    requires Meets(p.lim, tseg1) && tseg1 <= p.lim.tseg1Max && Place(tseg1) < totalTq
    requires BestBefore(p, brp, Place(tseg1), best) && Remembered(p, best, bestErr, bestTq)
    ensures var next := Wrap32(tseg1 + 1);
            && Meets(p.lim, next) && Place(next) == Place(tseg1) + 1
            && BestBefore(p, brp, Place(next), newBest)
    ensures Remembered(p, newBest, newErr, newTq)
  {
    newErr, newTq, newBest := bestErr, bestTq, best;
    NextPlace(tseg1, totalTq);
    var tseg2 := Wrap32(totalTq - 1 - tseg1);
    assert tseg2 == Second(totalTq, tseg1);
    if tseg2 < p.lim.tseg2Min || tseg2 > p.lim.tseg2Max {
      SkipPlace(p, brp, tseg1, best);
      return;
    }
    var sp, err := Judge(p, tseg1, totalTq);
    var better := err < bestErr || (err == bestErr && totalTq > bestTq);
    if !better {
      NotBetter(p, brp, tseg1, best, bestErr, bestTq, totalTq, err);
      return;
    }
    IsBetter(p, brp, tseg1, best, bestErr, bestTq, totalTq, err);
    var timing := Write(p, brp, totalTq, tseg1, tseg2, sp);
    newErr, newTq, newBest := err, totalTq, Some(timing);
  }

  method TrySplits(p: Problem, brp: u32, totalTq: u32, bestErr: u32, bestTq: u32, best: Option<Timing>)
    returns (newErr: u32, newTq: u32, newBest: Option<Timing>)
    requires p.clock > 0 && Prescales(p, brp) && totalTq == Quanta(p, brp)
    requires BestBefore(p, brp, 0, best) && Remembered(p, best, bestErr, bestTq)
    ensures BestBefore(p, brp + 1, 0, newBest) && Remembered(p, newBest, newErr, newTq)
  {
    newErr, newTq, newBest := bestErr, bestTq, best;
    var tseg1: u32 := p.lim.tseg1Min;
    Unmet(p, brp, newBest);
    while tseg1 <= p.lim.tseg1Max
      invariant Meets(p.lim, tseg1)
      invariant BestBefore(p, brp, Place(tseg1), newBest) && Remembered(p, newBest, newErr, newTq)
      decreases totalTq - Place(tseg1)
    {
      if Wrap32(1 + tseg1) >= totalTq {
        break;
      }
      newErr, newTq, newBest := Consider(p, brp, totalTq, tseg1, newErr, newTq, newBest);
      tseg1 := Wrap32(tseg1 + 1);
    }
    AllMet(p, brp, tseg1, newBest);
  }

  // Where the loop over splits can stand.
  predicate Meets(lim: Limits, tseg1: u32) {
    if lim.tseg1Min < LAST then lim.tseg1Min <= tseg1 < LAST else tseg1 == LAST || lim.tseg1Max == LAST
  }

  lemma NextPlace(tseg1: u32, tq: u32)
    requires Place(tseg1) < tq
    ensures var next := Wrap32(tseg1 + 1); next < LAST && next == Place(tseg1) && Place(next) == Place(tseg1) + 1
  {
    assert Wrap32(tseg1 + 1) == Place(tseg1);
  }

  // Where the inner loop stops, no later split is a candidate.
  lemma AllMet(p: Problem, brp: u32, tseg1: u32, best: Option<Timing>)
    requires p.clock > 0 && BestBefore(p, brp, Place(tseg1), best)
    requires tseg1 > p.lim.tseg1Max || Place(tseg1) >= Quanta(p, brp)
    requires Meets(p.lim, tseg1)
    ensures BestBefore(p, brp + 1, 0, best)
  {
    forall b: u32, t: u32 | Candidate(p, b, t) && Before(b, t, brp + 1, 0)
      ensures Before(b, t, brp, Place(tseg1))
    {
    }
  }

  // Nothing is met before the first split.
  lemma Unmet(p: Problem, brp: u32, best: Option<Timing>)
    requires p.clock > 0 && BestBefore(p, brp, 0, best)
    ensures BestBefore(p, brp, Place(p.lim.tseg1Min), best)
  {
  }

  // The loop variable of the outer loop after n increments, were it to go on.
  function BrpAfter(brp: u32, n: nat): u32 { if n == 0 then brp else Wrap32(BrpAfter(brp, n - 1) + 1) }

  lemma {:induction false} BrpCounts(brp: u32, n: nat)
    requires brp + n <= LAST
    ensures BrpAfter(brp, n) == brp + n
  {
    if n > 0 {
      BrpCounts(brp, n - 1);
      NextBrp(brp + (n - 1));
    }
  }

  lemma NextBrp(brp: u32)
    requires brp < LAST
    ensures Wrap32(brp + 1) == brp + 1
  {
  }

  /** The outer loop's condition fails at some time exactly when the largest prescaler is below the
      largest number; otherwise the loop never ends. */
  lemma LoopEndsIff(lim: Limits)
    ensures (exists n: nat :: BrpAfter(lim.brpMin, n) > lim.brpMax) <==> lim.brpMax < LAST
  {
    if lim.brpMax < LAST {
      var n := if lim.brpMin > lim.brpMax then 0 else lim.brpMax + 1 - lim.brpMin;
      BrpCounts(lim.brpMin, n);
      assert BrpAfter(lim.brpMin, n) > lim.brpMax;
    }
  }

  /** The solver. The result replaces `*out` when there is one. */
  method Solve(p: Problem) returns (best: Option<Timing>)
    requires p.clock > 0 && p.bitrate > 0 ==> p.lim.brpMax < LAST
    ensures p.clock == 0 || p.bitrate == 0 ==> best == None
    ensures p.clock > 0 && p.bitrate > 0 ==> IsBest(p, best)
  {
    if p.clock == 0 || p.bitrate == 0 {
      return None;
    }
    best := None;
    var bestErr, bestTq := 0xFFFF_FFFF, 0;
    var brp := p.lim.brpMin;
    while brp <= p.lim.brpMax
      invariant p.lim.brpMin <= brp
      invariant BestBefore(p, brp, 0, best) && Remembered(p, best, bestErr, bestTq)
    {
      var divisor := Wrap32(brp * p.bitrate);
      if divisor != 0 && p.clock % divisor == 0 {
        var totalTq := p.clock / divisor;
        if !(totalTq < p.lim.tqMin || totalTq > p.lim.tqMax) {
          bestErr, bestTq, best := TrySplits(p, brp, totalTq, bestErr, bestTq, best);
        }
      }
      brp := brp + 1;
    }
  }
}
