/** The solver with the default controller limits: what is legal, and some answers and refusals. */
module BitTimingDefaults {
  import opened Arithmetic
  import opened Words
  import opened BitTiming
  import opened BitTimingExact
  import opened BitTimingRanking

  /** The limits of the default controller, in numbers. */
  lemma DefaultLegal(p: Problem, brp: u32, tseg1: u32, tseg2: u32)
    requires p.lim == BXCAN
    ensures Legal(p, brp, tseg1, tseg2) <==>
            && 1 <= brp <= 1024 && 1 <= tseg1 <= 16 && 1 <= tseg2 <= 8 && 8 <= 1 + tseg1 + tseg2 <= 25
            && (brp * p.bitrate) * (1 + tseg1 + tseg2) == p.clock
  {
  }

  // The ratio of clock and bitrate is shared out between prescaler and quanta.
  lemma SharedOut(p: Problem, brp: u32, ratio: nat)
    requires p.lim == BXCAN && p.bitrate > 0 && 1024 * p.bitrate < 0x1_0000_0000 && p.clock == ratio * p.bitrate > 0
    requires Prescales(p, brp)
    ensures brp * Quanta(p, brp) == ratio && 8 <= Quanta(p, brp) <= 25
  {
    var q := Quanta(p, brp);
    TimesMonotone(brp, 1024, p.bitrate);
    NoWrap(brp * p.bitrate);
    WholeQuotient(p.clock, brp * p.bitrate);
    assert q * (brp * p.bitrate) == (brp * q) * p.bitrate;
    SameFactor(brp * q, ratio, p.bitrate);
  }

  lemma SameFactor(a: nat, b: nat, c: nat)
    requires a * c == b * c && c > 0
    ensures a == b
  {
    if a < b {
      ProductMonotone(a, b, c, c);
    } else if b < a {
      ProductMonotone(b, a, c, c);
    }
  }

  const CANONICAL: Problem := Problem(36_000_000, 500_000, 875, BXCAN)

  lemma CanonicalQuanta(brp: u32)
    requires Prescales(CANONICAL, brp)
    ensures Quanta(CANONICAL, brp) in {8, 9, 12, 18, 24} && brp * Quanta(CANONICAL, brp) == 72
  {
    SharedOut(CANONICAL, brp, 72);
    Divisors72(brp, Quanta(CANONICAL, brp));
  }

  lemma Divisors72(b: nat, q: nat)
    requires b * q == 72 && 8 <= q <= 25
    ensures q in {8, 9, 12, 18, 24}
  {
    assert b <= 9 by {
      if b > 9 {
        ProductMonotone(9, b, 8, q);
      }
    }
  }

  lemma CanonicalErrors(t: u32)
    requires t <= 16
    ensures Error(CANONICAL, t, 8) == 0 <==> t == 6
    ensures Error(CANONICAL, t, 9) > 0 && Error(CANONICAL, t, 12) > 0
  {
    SmallSample(t, 8);
    SmallSample(t, 9);
    SmallSample(t, 12);
  }

  lemma CanonicalErrorsAbove(t: u32)
    requires t <= 16
    ensures Error(CANONICAL, t, 18) > 0 && Error(CANONICAL, t, 24) > 0
  {
    SmallSample(t, 18);
    SmallSample(t, 24);
  }

  /** 36 MHz, 500 kbit/s, 87.5 %: prescaler 9 and 8 quanta, the one split that is exact. */
  lemma Canonical(best: Option<Timing>)
    requires IsBest(CANONICAL, best)
    ensures best == Some(Timing(9, 6, 1, 1, 8, 500_000, 875, 0))
  {
    assert Quanta(CANONICAL, 9) == 8;
    assert Candidate(CANONICAL, 9, 6);
    CanonicalErrors(6);
    CanonicalQuanta(best.value.brp);
    CanonicalErrors(best.value.tseg1);
    CanonicalErrorsAbove(best.value.tseg1);
  }

  const SHORT_BUS: Problem := Problem(80_000_000, 1_000_000, 750, BXCAN)

  lemma ShortBusQuanta(brp: u32)
    requires Prescales(SHORT_BUS, brp)
    ensures Quanta(SHORT_BUS, brp) <= 20 && brp * Quanta(SHORT_BUS, brp) == 80
  {
    SharedOut(SHORT_BUS, brp, 80);
    Divisors80(brp, Quanta(SHORT_BUS, brp));
  }

  lemma Divisors80(b: nat, q: nat)
    requires b * q == 80 && 8 <= q <= 25
    ensures q <= 20
  {
    if b >= 4 {
      TimesMonotone(4, b, q);
    } else {
      TimesMonotone(b, 3, q);
    }
  }

  lemma ShortBusErrors(t: u32)
    requires t <= 16
    ensures Error(SHORT_BUS, t, 20) == 0 <==> t == 14
  {
    SmallSample(t, 20);
  }

  /** 80 MHz, 1 Mbit/s, 75 %: the most quanta of the exact splits, and the widest jump allowed. */
  lemma ShortBus(best: Option<Timing>)
    requires IsBest(SHORT_BUS, best)
    ensures best == Some(Timing(4, 14, 5, 4, 20, 1_000_000, 750, 0))
  {
    assert Quanta(SHORT_BUS, 4) == 20;
    assert Candidate(SHORT_BUS, 4, 14);
    ShortBusErrors(14);
    ShortBusQuanta(best.value.brp);
    ShortBusErrors(best.value.tseg1);
  }

  /** A clock of 7 bit times cannot be divided into quanta, nor one that is no multiple of the bitrate. */
  lemma Impossible(clock: u32, bitrate: u32, best: Option<Timing>, target: u32)
    requires bitrate > 0 && 1024 * bitrate < 0x1_0000_0000 && clock > 0
    requires clock == 7 * bitrate || clock % bitrate != 0
    requires IsBest(Problem(clock, bitrate, target, BXCAN), best)
    ensures best == None
  {
    var p := Problem(clock, bitrate, target, BXCAN);
    if best.Some? {
      assert Guarded(p);
      RefusesIffNoneLegal(p, best);
      var brp: u32, t1: u32, t2: u32 :| Legal(p, brp, t1, t2);
      NoSplit(p, brp, 1 + t1 + t2);
    }
  }

  lemma NoSplit(p: Problem, brp: u32, tq: nat)
    requires p.bitrate > 0 && p.clock > 0 && Exact(p, brp, tq) && tq >= 8
    ensures p.clock != 7 * p.bitrate && p.clock % p.bitrate == 0
  {
    assert (brp * p.bitrate) * tq == (brp * tq) * p.bitrate;
    DivideBack(p.bitrate, brp * tq, p.clock);
    if p.clock == 7 * p.bitrate {
      SameFactor(brp * tq, 7, p.bitrate);
      PositiveFactors(brp, tq);
      Grows(tq, brp);
    }
  }
}
