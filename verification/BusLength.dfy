/** The longest bus a bit timing tolerates, in whole metres, in the widths of the source. */
module BusLength {
  import opened Arithmetic
  import opened Words

  const NANOS := 1_000_000_000

  // A time quantum in whole nanoseconds.
  function QuantumNs(brp: u32, clock: u32): u64
    requires clock > 0
  {
    Wrap64(brp * NANOS) / clock
  }

  // From half the round trip, less the loop delay, at 5 ns per metre, rounded down.
  function Report(half: nat, delay: u32): u32 {
    if half <= delay then 0
    else
      var bus := half - delay;
      Wrap32(bus / 5)
  }

  /** The round trip is TSEG1 less one quantum. */
  function MaxBusLength(brp: u32, tseg1: u32, clock: u32, delay: u32): u32 {
    if clock == 0 || brp == 0 then 0
    else
      var tq := QuantumNs(brp, clock);
      if tseg1 < 2 then 0
      else
        var prop := Wrap64((tseg1 - 1) * tq);
        var budget := prop / 2;
        Report(budget, delay)
  }

  // The same in unbounded arithmetic.
  function Length(brp: u32, tseg1: u32, clock: u32, delay: u32): nat {
    if clock == 0 || brp == 0 || tseg1 < 2 then 0 else Metres(Budget(tseg1 - 1, Quantum(brp, clock)), delay)
  }

  function Quantum(brp: nat, clock: nat): nat
    requires clock > 0
  {
    brp * NANOS / clock
  }

  function Budget(quanta: nat, ns: nat): nat { quanta * ns }

  function Metres(prop: nat, delay: u32): nat {
    if prop / 2 <= delay then 0 else (prop / 2 - delay) / 5
  }

  lemma QuantumFits(brp: u32, clock: u32)
    requires clock > 0
    ensures QuantumNs(brp, clock) == Quantum(brp, clock)
  {
  }

  // ------------------------------------------------------------- the largest length

  lemma MetresIff(prop: nat, delay: u32, m: nat)
    requires m > 0
    ensures m <= Metres(prop, delay) <==> 2 * (5 * m + delay) <= prop
  {
  }

  lemma QuotientBelowBound(x: nat, c: nat, k: nat)
    requires c > 0 && x < k * c
    ensures x / c < k
  {
    assert (k - x / c) * c == k * c - (x / c) * c;
    PositiveFactor(k - x / c, c);
  }

  // A time quantum of that many whole nanoseconds: brp / clock seconds, rounded down.
  predicate IsQuantum(q: nat, brp: u32, clock: u32) {
    q * clock <= brp * 1_000_000_000 < (q + 1) * clock
  }

  lemma OneQuantum(q: nat, brp: u32, clock: u32)
    requires clock > 0 && IsQuantum(q, brp, clock)
    ensures q == Quantum(brp, clock)
  {
    QuotientAtLeast(q, clock, brp * 1_000_000_000);
    QuotientBelowBound(brp * 1_000_000_000, clock, q + 1);
  }

  /** A positive number of metres is within the length exactly when twice its delay and the loop
      delay fit into TSEG1 less one quantum; so the length is the largest that fits. */
  lemma LengthIff(brp: u32, tseg1: u32, clock: u32, delay: u32, m: nat, q: nat)
    requires clock > 0 && brp > 0 && tseg1 > 0 && m > 0 && IsQuantum(q, brp, clock)
    ensures m <= Length(brp, tseg1, clock, delay) <==> 2 * (5 * m + delay) <= (tseg1 - 1) * q
  {
    OneQuantum(q, brp, clock);
    LengthFits(brp, tseg1, clock, delay, m);
  }

  lemma LengthFits(brp: u32, tseg1: u32, clock: u32, delay: u32, m: nat)
    requires clock > 0 && brp > 0 && tseg1 > 0 && m > 0
    ensures m <= Length(brp, tseg1, clock, delay) <==>
            2 * (5 * m + delay) <= Budget(tseg1 - 1, Quantum(brp, clock))
  {
    if tseg1 >= 2 {
      MetresIff(Budget(tseg1 - 1, Quantum(brp, clock)), delay, m);
    }
  }

  // ------------------------------------------------------------- widths

  // What is reported depends on the round trip in 64 bits, halved, and the loop delay.
  lemma ReportOf(brp: u32, tseg1: u32, clock: u32, delay: u32, prop: nat)
    requires clock > 0 && brp > 0 && tseg1 >= 2
    requires prop == Budget(tseg1 - 1, Quantum(brp, clock))
    ensures MaxBusLength(brp, tseg1, clock, delay) == Report(Wrap64(prop) / 2, delay)
  {
    var tq := QuantumNs(brp, clock);
    QuantumFits(brp, clock);
    assert tq == Quantum(brp, clock);
    assert (tseg1 - 1) * tq == prop;
  }

  lemma MetresWrapped(prop: nat, delay: u32)
    ensures var r := Report(Wrap64(prop) / 2, delay);
            && r <= Metres(prop, delay)
            && (r == Metres(prop, delay) <==> Metres(prop, delay) < 0x1_0000_0000)
  {
    if prop >= 0x1_0000_0000_0000_0000 {
      assert Metres(prop, delay) >= 0x1_0000_0000;
      assert Wrap64(prop) <= prop;
    }
  }

  /** The source never reports more than the true length, and reports it exactly when it fits in
      32 bits: no other wrap can happen alone. */
  lemma WrapsOnlyBeyond32Bits(brp: u32, tseg1: u32, clock: u32, delay: u32)
    ensures MaxBusLength(brp, tseg1, clock, delay) <= Length(brp, tseg1, clock, delay)
    ensures MaxBusLength(brp, tseg1, clock, delay) == Length(brp, tseg1, clock, delay) <==>
            Length(brp, tseg1, clock, delay) < 0x1_0000_0000
  {
    if clock > 0 && brp > 0 && tseg1 >= 2 {
      ReportOf(brp, tseg1, clock, delay, Budget(tseg1 - 1, Quantum(brp, clock)));
      MetresWrapped(Budget(tseg1 - 1, Quantum(brp, clock)), delay);
    }
  }

  // ------------------------------------------------------------- the safe direction

  lemma QuotientBelow(x: nat, clock: nat)
    requires clock > 0
    ensures (x / clock) * clock <= x
  {
  }

  lemma ScaledBelow(a: nat, k: nat, q: nat, clock: nat, x: nat)
    requires a <= Budget(k, q) && q * clock <= x
    ensures a * clock <= k * x
  {
    TimesMonotone(a, k * q, clock);
    assert (k * q) * clock == k * (q * clock);
    TimesMonotone(q * clock, x, k);
  }

  /** Every rounding is on the safe side, on all inputs: what is reported, wrapped or not, fits
      into TSEG1 less one quantum in exact arithmetic. */
  lemma ReportedIsSafe(brp: u32, tseg1: u32, clock: u32, delay: u32)
    ensures var r := MaxBusLength(brp, tseg1, clock, delay);
            r > 0 ==> clock > 0 && tseg1 > 1 && 2 * (5 * r + delay) * clock <= (tseg1 - 1) * (brp * 1_000_000_000)
  {
    var r := MaxBusLength(brp, tseg1, clock, delay);
    WrapsOnlyBeyond32Bits(brp, tseg1, clock, delay);
    if r > 0 {
      LengthFits(brp, tseg1, clock, delay, r);
      QuotientBelow(brp * NANOS, clock);
      ScaledBelow(2 * (5 * r + delay), tseg1 - 1, Quantum(brp, clock), clock, brp * NANOS);
    }
  }

  /** One metre more than reported exceeds what the quantum of whole nanoseconds leaves, exactly when
      2^32 metres do. */
  lemma OneMoreIsTooMuchIff(brp: u32, tseg1: u32, clock: u32, delay: u32, q: nat)
    requires clock > 0 && brp > 0 && tseg1 > 0 && IsQuantum(q, brp, clock)
    ensures 2 * (5 * (MaxBusLength(brp, tseg1, clock, delay) + 1) + delay) > (tseg1 - 1) * q <==>
            2 * (5 * 0x1_0000_0000 + delay) > (tseg1 - 1) * q
  {
    WrapsOnlyBeyond32Bits(brp, tseg1, clock, delay);
    LengthIff(brp, tseg1, clock, delay, MaxBusLength(brp, tseg1, clock, delay) + 1, q);
    LengthIff(brp, tseg1, clock, delay, 0x1_0000_0000, q);
  }

  // At 36 MHz and 500 kbit/s, with prescaler 4 and a first segment of 15, a quantum is 111 ns.
  lemma HalfMegabit()
    ensures MaxBusLength(4, 15, 36_000_000, 200) == 115
  {
  }

  // ------------------------------------------------------------- monotone

  lemma QuotientMonotone(x: nat, y: nat, c: nat, d: nat)
    requires x <= y && 0 < d <= c
    ensures x / c <= y / d
  {
    var q := x / c;
    assert q * c <= x;
    TimesMonotone(d, c, q);
    QuotientAtLeast(q, d, y);
  }

  lemma BudgetMonotone(a: nat, q: nat, b: nat, r: nat)
    requires a <= b && q <= r
    ensures Budget(a, q) <= Budget(b, r)
  {
    TimesMonotone(a, b, q);
    TimesMonotone(q, r, b);
  }

  /** A shorter loop delay, a slower clock, a larger prescaler or a longer first segment never
      shortens the bus. */
  lemma LengthMonotone(brp: u32, tseg1: u32, clock: u32, delay: u32, brp2: u32, tseg2: u32, clock2: u32, delay2: u32)
    requires brp <= brp2 && tseg1 <= tseg2 && 0 < clock2 <= clock && delay2 <= delay
    ensures Length(brp, tseg1, clock, delay) <= Length(brp2, tseg2, clock2, delay2)
  {
    var m := Length(brp, tseg1, clock, delay);
    if m > 0 {
      LengthFits(brp, tseg1, clock, delay, m);
      QuotientMonotone(brp * NANOS, brp2 * NANOS, clock, clock2);
      BudgetMonotone(tseg1 - 1, Quantum(brp, clock), tseg2 - 1, Quantum(brp2, clock2));
      LengthFits(brp2, tseg2, clock2, delay2, m);
    }
  }

  /** So what is reported is monotone when the larger length fits in 32 bits, */
  lemma ReportedMonotone(brp: u32, tseg1: u32, clock: u32, delay: u32, brp2: u32, tseg2: u32, clock2: u32, delay2: u32)
    requires brp <= brp2 && tseg1 <= tseg2 && 0 < clock2 <= clock && delay2 <= delay
    requires Length(brp2, tseg2, clock2, delay2) < 0x1_0000_0000
    ensures MaxBusLength(brp, tseg1, clock, delay) <= MaxBusLength(brp2, tseg2, clock2, delay2)
  {
    LengthMonotone(brp, tseg1, clock, delay, brp2, tseg2, clock2, delay2);
    WrapsOnlyBeyond32Bits(brp, tseg1, clock, delay);
    WrapsOnlyBeyond32Bits(brp2, tseg2, clock2, delay2);
  }

  // Beyond that it need not be: at 1 Hz a longer first segment wraps to a shorter length.
  lemma WrappedIsNotMonotone()
    ensures MaxBusLength(22, 2, 1, 0) == 2_200_000_000 && MaxBusLength(22, 3, 1, 0) == 105_032_704
  {
    assert QuantumNs(22, 1) == 22_000_000_000;
  }

  // ------------------------------------------------------------- where monotonicity ends

  // Inputs that a caller would expect to allow no longer a bus than others.
  predicate NoLonger(brp: u32, tseg1: u32, clock: u32, delay: u32, brp2: u32, tseg2: u32, clock2: u32, delay2: u32) {
    brp <= brp2 && tseg1 <= tseg2 && clock2 <= clock && delay2 <= delay
  }

  // What is reported is monotone among all inputs that allow no longer a bus than the given ones.
  ghost predicate MonotoneUpTo(brp: u32, tseg1: u32, clock: u32, delay: u32) {
    forall b: u32, s: u32, c: u32, d: u32, b2: u32, s2: u32, c2: u32, d2: u32
      | NoLonger(b, s, c, d, b2, s2, c2, d2) && NoLonger(b2, s2, c2, d2, brp, tseg1, clock, delay) ::
      MaxBusLength(b, s, c, d) <= MaxBusLength(b2, s2, c2, d2)
  }

  lemma OneTurnLost(prop: nat, delay: u32)
    requires 0x1_0000_0000 <= Metres(prop, delay) < 0x2_0000_0000
    ensures Report(Wrap64(prop) / 2, delay) == Metres(prop, delay) - 0x1_0000_0000
  {
    assert prop < 0x1_0000_0000_0000_0000;
    assert Wrap64(prop) == prop;
  }

  // From a length that fits to one that does not, by less than a turn, the report falls.
  lemma ReportFalls(b: u32, s: u32, c: u32, d: u32, b2: u32, s2: u32)
    requires c > 0 && b <= b2 && s <= s2
    requires Length(b, s, c, d) < 0x1_0000_0000 <= Length(b2, s2, c, d) < Length(b, s, c, d) + 0x1_0000_0000
    ensures MaxBusLength(b2, s2, c, d) < MaxBusLength(b, s, c, d)
  {
    var prop := Budget(s2 - 1, Quantum(b2, c));
    WrapsOnlyBeyond32Bits(b, s, c, d);
    ReportOf(b2, s2, c, d, prop);
    OneTurnLost(prop, d);
  }

  lemma MetresStep(prop: nat, more: nat, delay: u32, k: nat)
    requires more <= 10 * k
    ensures Metres(prop + more, delay) <= Metres(prop, delay) + k + 1
  {
  }

  // The first segment whose length does not fit.
  lemma {:induction false} FirstSegment(b: u32, t: u32, c: u32, d: u32) returns (s: u32)
    requires c > 0 && Length(b, t, c, d) >= 0x1_0000_0000
    ensures 2 <= s <= t && Length(b, s, c, d) >= 0x1_0000_0000 && Length(b, s - 1, c, d) < 0x1_0000_0000
    decreases t
  {
    if Length(b, t - 1, c, d) < 0x1_0000_0000 {
      s := t;
    } else {
      s := FirstSegment(b, t - 1, c, d);
    }
  }

  // The first prescaler whose length does not fit.
  lemma {:induction false} FirstPrescaler(b: u32, t: u32, c: u32, d: u32) returns (a: u32)
    requires c > 0 && Length(b, t, c, d) >= 0x1_0000_0000
    ensures 1 <= a <= b && Length(a, t, c, d) >= 0x1_0000_0000 && Length(a - 1, t, c, d) < 0x1_0000_0000
    decreases b
  {
    if Length(b - 1, t, c, d) < 0x1_0000_0000 {
      a := b;
    } else {
      a := FirstPrescaler(b - 1, t, c, d);
    }
  }

  lemma BudgetOne(n: nat, q: nat)
    ensures Budget(n + 1, q) == Budget(n, q) + q && Budget(0, q) == 0
  {
    assert (n + 1) * q == n * q + q;
  }

  // One more quantum of the first segment.
  lemma SegmentStep(b: u32, s: u32, c: u32, d: u32, k: nat)
    requires c > 0 && s >= 2 && Quantum(b, c) <= 10 * k
    ensures Length(b, s, c, d) <= Length(b, s - 1, c, d) + k + 1
  {
    BudgetOne(s - 2, Quantum(b, c));
    MetresStep(Budget(s - 2, Quantum(b, c)), Quantum(b, c), d, k);
    assert s == 2 ==> Metres(Budget(s - 2, Quantum(b, c)), d) == 0;
  }

  lemma QuantumStep(b: nat, c: nat)
    requires b > 0 && c > 0
    ensures Quantum(b - 1, c) <= Quantum(b, c) <= Quantum(b - 1, c) + NANOS + 1
  {
    QuotientMonotone((b - 1) * NANOS, b * NANOS, c, c);
    QuotientStep((b - 1) * NANOS, NANOS, c);
  }

  lemma QuotientStep(x: nat, y: nat, c: nat)
    requires c > 0
    ensures (x + y) / c <= x / c + y + 1
  {
    var q, r := x / c, x % c;
    assert x == c * q + r;
    TimesMonotone(1, c, y + 1);
    assert (q + y + 2) * c == q * c + (y + 1) * c + c;
    QuotientBelowBound(x + y, c, q + y + 2);
  }

  // One more prescaler, with a first segment of at most 3.
  lemma PrescalerStep(b: u32, s: u32, c: u32, d: u32)
    requires c > 0 && b >= 1 && 2 <= s <= 3
    ensures Length(b, s, c, d) <= Length(b - 1, s, c, d) + 200_000_002
  {
    var q, more := Quantum(b - 1, c), Quantum(b, c) - Quantum(b - 1, c);
    QuantumStep(b, c);
    MetresStep(Budget(s - 1, q), (s - 1) * more, d, 200_000_001);
    assert Budget(s - 1, Quantum(b, c)) == Budget(s - 1, q) + (s - 1) * more;
    assert b == 1 ==> q == 0 && Metres(Budget(s - 1, q), d) == 0;
  }

  const LONG_QUANTUM := 10 * 0xFFFF_FFFE

  // With a quantum longer than 42.9 s the length outgrows 32 bits within the first two quanta.
  lemma LongQuantum(b: u32, s: u32, c: u32, d: u32)
    requires c > 0 && b > 0 && s >= 2 && Quantum(b, c) > LONG_QUANTUM && Length(b, s - 1, c, d) < 0x1_0000_0000
    ensures s <= 3
  {
    if s >= 4 {
      LengthFits(b, s - 1, c, d, 0x1_0000_0000);
      BudgetMonotone(2, LONG_QUANTUM, s - 2, Quantum(b, c));
    }
  }

  lemma FallsBelow(b: u32, t: u32, c: u32, d: u32)
    requires c > 0 && Length(b, t, c, d) >= 0x1_0000_0000
    ensures !MonotoneUpTo(b, t, c, d)
  {
    var s := FirstSegment(b, t, c, d);
    if Quantum(b, c) <= LONG_QUANTUM {
      SegmentStep(b, s, c, d, 0xFFFF_FFFE);
      ReportFalls(b, s - 1, c, d, b, s);
      assert NoLonger(b, s - 1, c, d, b, s, c, d) && NoLonger(b, s, c, d, b, t, c, d);
    } else {
      LongQuantum(b, s, c, d);
      var a := FirstPrescaler(b, s, c, d);
      PrescalerStep(a, s, c, d);
      ReportFalls(a - 1, s, c, d, a, s);
      assert NoLonger(a - 1, s, c, d, a, s, c, d) && NoLonger(a, s, c, d, b, t, c, d);
    }
  }

  /** What is reported is monotone up to given inputs exactly when their own length fits in 32 bits. */
  lemma ReportedMonotoneIff(brp: u32, tseg1: u32, clock: u32, delay: u32)
    requires clock > 0
    ensures MonotoneUpTo(brp, tseg1, clock, delay) <==> Length(brp, tseg1, clock, delay) < 0x1_0000_0000
  {
    if Length(brp, tseg1, clock, delay) >= 0x1_0000_0000 {
      FallsBelow(brp, tseg1, clock, delay);
    } else {
      forall b: u32, s: u32, c: u32, d: u32, b2: u32, s2: u32, c2: u32, d2: u32
        | NoLonger(b, s, c, d, b2, s2, c2, d2) && NoLonger(b2, s2, c2, d2, brp, tseg1, clock, delay)
        ensures MaxBusLength(b, s, c, d) <= MaxBusLength(b2, s2, c2, d2)
      {
        LengthMonotone(b2, s2, c2, d2, brp, tseg1, clock, delay);
        ReportedMonotone(b, s, c, d, b2, s2, c2, d2);
      }
    }
  }

  // ------------------------------------------------------------- the loop delay alone

  // The turns of the 32-bit result that are lost.
  function Turns(half: nat, delay: u32): nat { if half <= delay then 0 else (half - delay) / 5 / 0x1_0000_0000 }

  // No longer delay reaches the largest number of the turn below.
  predicate TurnBelowUnreachable(half: nat, delay: u32) {
    half - 5 * 0x1_0000_0000 * Turns(half, delay) >= 0xFFFF_FFFF
  }

  lemma ReportWithinTurn(half: nat, delay: u32, longer: u32)
    requires delay <= longer && Turns(half, longer) == Turns(half, delay)
    ensures Report(half, longer) <= Report(half, delay)
  {
  }

  lemma TurnBelowReached(half: nat, delay: u32)
    requires Turns(half, delay) > 0 && !TurnBelowUnreachable(half, delay)
    ensures exists longer: u32 | delay <= longer :: Report(half, longer) == 0xFFFF_FFFF
  {
    var longer := half - 5 * 0x1_0000_0000 * Turns(half, delay) + 1;
    assert (half - longer) / 5 == 0x1_0000_0000 * Turns(half, delay) - 1;
    assert delay <= longer && Report(half, longer) == 0xFFFF_FFFF;
  }

  lemma SameTurn(half: nat, delay: u32, longer: u32)
    requires delay <= longer && (Turns(half, delay) == 0 || TurnBelowUnreachable(half, delay))
    ensures Turns(half, longer) == Turns(half, delay)
  {
  }

  // The length stands at the end of a turn.
  predicate EndOfTurn(half: nat, delay: u32) { half > delay && (half - delay) / 5 % 0x1_0000_0000 == 0xFFFF_FFFF }

  lemma ReportDominatesIff(half: nat, delay: u32)
    ensures (forall longer: u32 | delay <= longer :: Report(half, longer) <= Report(half, delay)) <==>
            Turns(half, delay) == 0 || EndOfTurn(half, delay) || TurnBelowUnreachable(half, delay)
  {
    if Turns(half, delay) == 0 || TurnBelowUnreachable(half, delay) {
      forall longer: u32 | delay <= longer
        ensures Report(half, longer) <= Report(half, delay)
      {
        SameTurn(half, delay, longer);
        ReportWithinTurn(half, delay, longer);
      }
    } else {
      TurnBelowReached(half, delay);
    }
  }

  /** In the loop delay alone: a report is at least that for every longer delay when, and
      only when, nothing is lost to the width, or the length stands at the end of a turn, or no delay is
      long enough to come down to the end of the turn below. */
  lemma DelayDominatesIff(brp: u32, tseg1: u32, clock: u32, delay: u32)
    requires clock > 0 && brp > 0 && tseg1 >= 2
    ensures var half := Wrap64(Budget(tseg1 - 1, Quantum(brp, clock))) / 2;
            (forall longer: u32 | delay <= longer ::
               MaxBusLength(brp, tseg1, clock, longer) <= MaxBusLength(brp, tseg1, clock, delay)) <==>
            Turns(half, delay) == 0 || EndOfTurn(half, delay) || TurnBelowUnreachable(half, delay)
  {
    var half := Wrap64(Budget(tseg1 - 1, Quantum(brp, clock))) / 2;
    ReportDominatesIff(half, delay);
    forall longer: u32
      ensures MaxBusLength(brp, tseg1, clock, longer) == Report(half, longer)
    {
      ReportOf(brp, tseg1, clock, longer, Budget(tseg1 - 1, Quantum(brp, clock)));
    }
  }
}
