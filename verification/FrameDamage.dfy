/** Damaged frames under the parser's own checksum: which damage ends in a checksum error and which
    is accepted. */
module FrameDamage {
  import opened Words
  import L = LinearRegister
  import opened Crc
  import D = CrcDetection
  import opened FrameParser
  import opened FrameStream

  // ------------------------------------------------------------- the checksum of the parser

  function Octets(data: seq<u8>): (r: seq<byte>)
    ensures |r| == |data|
    ensures forall i | 0 <= i < |data| :: r[i] == data[i] as byte
  {
    seq(|data|, i requires 0 <= i < |data| => data[i] as byte)
  }

  lemma {:induction false} BitsKept(c: byte)
    ensures c as int as byte == c
  {
  }

  lemma {:induction false} WordSplit(c: bv16)
    ensures ((c & 0xFF) as byte as bv16) | High((c >> 8) as byte) == c
  {
  }

  // The two bytes sent make the word again.
  lemma {:induction false} CcittSplits()
    ensures Splits(CCITT_CODE)
  {
    forall c: bv16
      ensures Word(CCITT_CODE, LowByte(c), HighByte(c)) == c
    {
      BitsKept((c & 0xFF) as byte);
      BitsKept((c >> 8) as byte);
      WordSplit(c);
    }
  }

  lemma {:induction false} FoldedIsFold(c: bv16, data: seq<u8>)
    ensures Folded(CCITT_CODE, c, data) == Fold(c, Octets(data))
  {
    if |data| > 0 {
      var k := |data| - 1;
      FoldedIsFold(c, data[..k]);
      assert Octets(data)[..k] == Octets(data[..k]);
    }
  }

  // The register when the length byte has been taken.
  function AfterLength(n: u8): bv16 { Fold(INIT, Octets([n])) }

  lemma {:induction false} OctetsConcat(a: seq<u8>, b: seq<u8>)
    ensures Octets(a + b) == Octets(a) + Octets(b)
  {
  }

  lemma {:induction false} FrameCrcIsFold(n: u8, p: seq<u8>)
    ensures FrameCrc(CCITT_CODE, n, p) == Fold(AfterLength(n), Octets(p))
  {
    FoldedIsFold(INIT, [n] + p);
    OctetsConcat([n], p);
    FoldConcat(INIT, Octets([n]), Octets(p));
  }

  // ------------------------------------------------------------- damaged frames

  // A frame as it arrives: its start, length and end bytes intact.
  function Arrived(n: u8, q: seq<u8>, lo: u8, hi: u8): seq<u8> { [STX, n] + q + [lo, hi, ETX] }

  // The checksum the sender computed for p.
  function Sent(p: seq<u8>): bv16
    requires |p| <= MAX_PAYLOAD
  {
    FrameCrc(CCITT_CODE, |p|, p)
  }

  lemma {:induction false} ArrivedParts(n: u8, q: seq<u8>, lo: u8, hi: u8)
    requires n == |q| <= MAX_PAYLOAD
    ensures var e := Arrived(n, q, lo, hi);
            && |e| == n + 5 && Carries(e, n, q) && e[1] == n
            && e[n + 2] == lo && e[n + 3] == hi && e[n + 4] == ETX && e[..n + 5] == e
  {
    assert Arrived(n, q, lo, hi)[2..n + 2] == q;
  }

  /** With the frame's other bytes intact, the payload that arrived is delivered if the checksum
      that arrived is its own; otherwise there is a checksum error one byte before the end, and
      the end byte is then skipped as noise. */
  lemma {:induction false} ArrivedRuns(s: View<bv16>, q: seq<u8>, lo: u8, hi: u8)
    requires Inv(s) && s.phase == Idle && |q| <= MAX_PAYLOAD
    ensures var t := Run(CCITT_CODE, s, Arrived(|q|, q, lo, hi));
            var rs := Reports(CCITT_CODE, s, Arrived(|q|, q, lo, hi));
            && t.phase == Idle
            && if Word(CCITT_CODE, lo, hi) == Sent(q) then
                 && rs == Quiets(|q| + 4) + [Complete(q)]
                 && t.stats == s.stats.(framesOk := Bump(s.stats.framesOk))
               else
                 && rs == Quiets(|q| + 3) + [BadCrc] + [Quiet]
                 && t.stats == s.stats.(errCrc := Bump(s.stats.errCrc), discarded := Bump(s.stats.discarded))
  {
    var n, e := |q|, Arrived(|q|, q, lo, hi);
    ArrivedParts(n, q, lo, hi);
    if Word(CCITT_CODE, lo, hi) == Sent(q) {
      FrameRun(CCITT_CODE, s, e, n, q);
    } else {
      CrcRun(CCITT_CODE, s, e, n, q);
      RunNext(CCITT_CODE, s, e, n + 4);
    }
  }

  ghost predicate Rejected(s: View<bv16>, p: seq<u8>, q: seq<u8>)
    requires Inv(s) && |p| == |q| <= MAX_PAYLOAD
  {
    Reports(CCITT_CODE, s, Arrived(|p|, q, LowByte(Sent(p)), HighByte(Sent(p)))) ==
    Quiets(|p| + 3) + [BadCrc] + [Quiet]
  }

  lemma {:induction false} OtherCrcRejected(s: View<bv16>, p: seq<u8>, q: seq<u8>)
    requires Inv(s) && s.phase == Idle && |p| == |q| <= MAX_PAYLOAD
    requires Fold(AfterLength(|p|), Octets(p)) != Fold(AfterLength(|p|), Octets(q))
    ensures Rejected(s, p, q)
  {
    CcittSplits();
    FrameCrcIsFold(|p|, p);
    FrameCrcIsFold(|p|, q);
    ArrivedRuns(s, q, LowByte(Sent(p)), HighByte(Sent(p)));
  }

  /** A payload damaged within any sixteen consecutive bits, its length and checksum bytes
      intact, always ends in a checksum error and is never delivered. */
  lemma {:induction false} BurstRejected(s: View<bv16>, p: seq<u8>, q: seq<u8>, from: nat, to: nat)
    requires Inv(s) && s.phase == Idle && |p| == |q| <= MAX_PAYLOAD
    requires L.IsBurst(D.Damage(Octets(p), Octets(q)), from, to, 16)
    ensures Rejected(s, p, q)
  {
    D.BurstDetected(AfterLength(|p|), Octets(p), Octets(q), from, to);
    OtherCrcRejected(s, p, q);
  }

  /** The same for an odd number of flipped bits. */
  lemma {:induction false} OddRejected(s: View<bv16>, p: seq<u8>, q: seq<u8>)
    requires Inv(s) && s.phase == Idle && |p| == |q| <= MAX_PAYLOAD
    requires L.Odd(D.Damage(Octets(p), Octets(q)))
    ensures Rejected(s, p, q)
  {
    D.OddDamageDetected(AfterLength(|p|), Octets(p), Octets(q));
    OtherCrcRejected(s, p, q);
  }

  // ------------------------------------------------------------- damage that also hits the checksum

  ghost predicate Delivered(s: View<bv16>, q: seq<u8>, lo: u8, hi: u8)
    requires Inv(s) && |q| <= MAX_PAYLOAD
  {
    Complete(q) in Reports(CCITT_CODE, s, Arrived(|q|, q, lo, hi))
  }

  lemma {:induction false} DeliveredIff(s: View<bv16>, q: seq<u8>, lo: u8, hi: u8)
    requires Inv(s) && s.phase == Idle && |q| <= MAX_PAYLOAD
    ensures Delivered(s, q, lo, hi) <==> Word(CCITT_CODE, lo, hi) == Sent(q)
  {
    ArrivedRuns(s, q, lo, hi);
    var rs := Reports(CCITT_CODE, s, Arrived(|q|, q, lo, hi));
    if Word(CCITT_CODE, lo, hi) == Sent(q) {
      assert rs[|q| + 4] == Complete(q);
    }
  }

  lemma {:induction false} XorSolves(a: bv16, b: bv16, w: bv16)
    ensures (w == b) <==> (Plus(a, b) == Plus(a, w))
  {
  }

  /** A damaged frame is delivered exactly when what the payload's damage leaves of the empty
      register is the damage of the checksum. */
  lemma {:induction false} DamageAcceptedIff(s: View<bv16>, p: seq<u8>, q: seq<u8>, lo: u8, hi: u8)
    requires Inv(s) && s.phase == Idle && |p| == |q| <= MAX_PAYLOAD
    ensures Delivered(s, q, lo, hi) <==>
            L.Run(CCITT, 0, D.Damage(Octets(p), Octets(q))) == Plus(Sent(p), Word(CCITT_CODE, lo, hi))
  {
    DeliveredIff(s, q, lo, hi);
    SentSum(p, q);
    XorSolves(Sent(p), Sent(q), Word(CCITT_CODE, lo, hi));
  }

  lemma {:induction false} SentSum(p: seq<u8>, q: seq<u8>)
    requires |p| == |q| <= MAX_PAYLOAD
    ensures Plus(Sent(p), Sent(q)) == L.Run(CCITT, 0, D.Damage(Octets(p), Octets(q)))
  {
    FrameCrcIsFold(|p|, p);
    FrameCrcIsFold(|p|, q);
    D.FoldIsRun(AfterLength(|p|), Octets(p));
    D.FoldIsRun(AfterLength(|p|), Octets(q));
    CcittGroup();
    CcittLinear();
    L.SumIsSyndrome(CCITT, AfterLength(|p|), D.Bits(Octets(p)), D.Bits(Octets(q)));
  }

  // ------------------------------------------------------------- odd damage anywhere

  lemma {:induction false} StepsKeepParity(x: bv16, n: nat)
    ensures D.Parity(L.Steps(CCITT, x, n)) == D.Parity(x)
  {
    if n > 0 {
      StepsKeepParity(x, n - 1);
      D.StepKeepsParity(L.Steps(CCITT, x, n - 1));
    }
  }

  lemma {:induction false} NoCarry(b: byte)
    ensures D.FourTurns(D.FourTurns(b as bv16)) == High(b)
  {
  }

  lemma {:induction false} ParityOfHigh(b: byte)
    ensures D.Parity(High(b)) == L.Odd(D.BitsOf(b))
  {
    D.UpdateIsRun(0, b);
    D.CcittParity();
    L.RunParity(CCITT, D.Parity, 0, D.BitsOf(b));
    PlusCommutes(0, High(b));
    PlusCancels(High(b));
    StepsKeepParity(High(b), 8);
    ParityOfZero();
  }

  lemma {:induction false} ParityOfZero()
    ensures !D.Parity(0)
  {
    D.ParityXor(0, 0);
    PlusCancels(0);
  }

  lemma {:induction false} ParityOfLow(b: byte)
    ensures D.Parity(b as bv16) == L.Odd(D.BitsOf(b))
  {
    var x := b as bv16;
    D.FourSteps(x);
    D.FourSteps(D.FourTurns(x));
    L.StepsConcat(CCITT, x, 4, 4);
    NoCarry(b);
    StepsKeepParity(x, 8);
    ParityOfHigh(b);
  }

  lemma {:induction false} JoinIsPlus(lo: byte, hi: byte)
    ensures (lo as bv16) | High(hi) == Plus(lo as bv16, High(hi))
  {
  }

  lemma {:induction false} WordIs(lo: u8, hi: u8)
    ensures Word(CCITT_CODE, lo, hi) == (lo as byte as bv16) | High(hi as byte)
  {
  }

  lemma {:induction false} ParityOfJoin(lo: byte, hi: byte)
    ensures D.Parity((lo as bv16) | High(hi)) == (L.Odd(D.BitsOf(lo)) != L.Odd(D.BitsOf(hi)))
  {
    JoinIsPlus(lo, hi);
    D.ParityXor(lo as bv16, High(hi));
    ParityOfLow(lo);
    ParityOfHigh(hi);
  }

  lemma {:induction false} ParityOfWord(lo: u8, hi: u8)
    ensures D.Parity(Word(CCITT_CODE, lo, hi)) == (L.Odd(D.BitsOf(lo as byte)) != L.Odd(D.BitsOf(hi as byte)))
  {
    WordIs(lo, hi);
    ParityOfJoin(lo as byte, hi as byte);
  }

  lemma {:induction false} OddConcat(a: seq<bool>, b: seq<bool>)
    ensures L.Odd(a + b) == (L.Odd(a) != L.Odd(b))
  {
    if |b| == 0 {
      assert a + b == a;
    } else {
      OddConcat(a, b[..|b| - 1]);
      assert (a + b)[..|a + b| - 1] == a + b[..|b| - 1];
    }
  }

  lemma {:induction false} BitsSnoc(data: seq<byte>, b: byte)
    ensures D.Bits(data + [b]) == D.Bits(data) + D.BitsOf(b)
  {
    assert (data + [b])[..|data|] == data;
  }

  // The payload and the two checksum bytes of a frame.
  function Body(q: seq<u8>, lo: u8, hi: u8): seq<byte> { Octets(q) + [lo as byte] + [hi as byte] }

  lemma {:induction false} OddBody(q: seq<u8>, lo: u8, hi: u8)
    ensures L.Odd(D.Bits(Body(q, lo, hi))) == (L.Odd(D.Bits(Octets(q))) != D.Parity(Word(CCITT_CODE, lo, hi)))
  {
    var a := Octets(q);
    BitsSnoc(a, lo as byte);
    BitsSnoc(a + [lo as byte], hi as byte);
    OddConcat(D.Bits(a), D.BitsOf(lo as byte));
    OddConcat(D.Bits(a + [lo as byte]), D.BitsOf(hi as byte));
    ParityOfWord(lo, hi);
  }

  // A body whose checksum is right has a parity that its length alone decides.
  lemma {:induction false} SealedParity(q: seq<u8>, lo: u8, hi: u8)
    requires |q| <= MAX_PAYLOAD && Word(CCITT_CODE, lo, hi) == Sent(q)
    ensures L.Odd(D.Bits(Body(q, lo, hi))) == D.Parity(AfterLength(|q|))
  {
    OddBody(q, lo, hi);
    FrameCrcIsFold(|q|, q);
    D.ParityFollowsMessage(AfterLength(|q|), Octets(q));
  }

  /** An odd number of flipped bits anywhere in payload and checksum is never accepted. */
  lemma {:induction false} OddBodyRejected(s: View<bv16>, p: seq<u8>, q: seq<u8>, lo: u8, hi: u8)
    requires Inv(s) && s.phase == Idle && |p| == |q| <= MAX_PAYLOAD
    requires L.Odd(D.Damage(Body(p, LowByte(Sent(p)), HighByte(Sent(p))), Body(q, lo, hi)))
    ensures !Delivered(s, q, lo, hi)
  {
    DeliveredIff(s, q, lo, hi);
    var plo, phi := LowByte(Sent(p)), HighByte(Sent(p));
    CcittSplits();
    SealedParity(p, plo, phi);
    D.OddOfDifferences(D.Bits(Body(p, plo, phi)), D.Bits(Body(q, lo, hi)));
    if Word(CCITT_CODE, lo, hi) == Sent(q) {
      SealedParity(q, lo, hi);
      assert false;
    }
  }

  // ------------------------------------------------------------- a short burst that is accepted

  function Flip(b: u8, mask: byte): u8 { (b as byte ^ mask) as int }

  lemma {:induction false} FlipIs(b: u8, mask: byte)
    ensures Flip(b, mask) as byte == b as byte ^ mask
  {
    BitsKept(b as byte ^ mask);
  }

  lemma {:induction false} FlippedByte(c: bv16, x: byte)
    ensures Plus(c, High(x ^ 0x89)) == Plus(Plus(c, High(x)), High(0x89))
  {
  }

  lemma {:induction false} EightTurns(c: bv16)
    ensures L.Steps(CCITT, c, 8) == D.FourTurns(D.FourTurns(c))
  {
    D.FourSteps(c);
    D.FourSteps(D.FourTurns(c));
    L.StepsConcat(CCITT, c, 4, 4);
  }

  lemma {:induction false} EightNine()
    ensures L.Steps(CCITT, High(0x89), 8) == 0x00A1
  {
    EightTurns(High(0x89));
    assert D.FourTurns(0x8900) == 0x1108;
  }

  lemma {:induction false} StepsAdd(x: bv16, y: bv16, n: nat)
    ensures L.Steps(CCITT, Plus(x, y), n) == Plus(L.Steps(CCITT, x, n), L.Steps(CCITT, y, n))
  {
    CcittLinear();
    L.StepsLinear(CCITT, x, y, n);
  }

  lemma {:induction false} UpdateFlipped(c: bv16, x: byte, y: byte)
    requires y == x ^ 0x89
    ensures Update(c, y) == Plus(Update(c, x), 0x00A1)
  {
    FlippedByte(c, x);
    StepsAdd(Plus(c, High(x)), High(0x89), 8);
    EightNine();
  }

  lemma {:induction false} LowFlipped(w: bv16)
    ensures ((w ^ 0x00A1) & 0xFF) as byte == (w & 0xFF) as byte ^ 0xA1
    ensures (w ^ 0x00A1) >> 8 == w >> 8
  {
  }

  lemma {:induction false} WordFlipped(w: bv16)
    ensures LowByte(Plus(w, 0x00A1)) == Flip(LowByte(w), 0xA1)
    ensures HighByte(Plus(w, 0x00A1)) == HighByte(w)
  {
    LowFlipped(w);
    BitsKept((w & 0xFF) as byte);
  }

  lemma {:induction false} FoldFlipped(c: bv16, front: seq<byte>, x: byte, y: byte)
    requires y == x ^ 0x89
    ensures Fold(c, front + [y]) == Plus(Fold(c, front + [x]), 0x00A1)
  {
    FoldSnoc(c, front, x);
    FoldSnoc(c, front, y);
    UpdateFlipped(Fold(c, front), x, y);
  }

  lemma {:induction false} OctetsSnoc(front: seq<u8>, x: u8)
    ensures Octets(front + [x]) == Octets(front) + [x as byte]
  {
    OctetsConcat(front, [x]);
    assert Octets([x]) == [x as byte];
  }

  lemma {:induction false} SentFlipped(front: seq<u8>, x: u8, y: u8)
    requires |front| < MAX_PAYLOAD && y as byte == x as byte ^ 0x89
    ensures Sent(front + [y]) == Plus(Sent(front + [x]), 0x00A1)
  {
    var n := |front| + 1;
    FrameCrcIsFold(n, front + [x]);
    FrameCrcIsFold(n, front + [y]);
    OctetsSnoc(front, x);
    OctetsSnoc(front, y);
    FoldFlipped(AfterLength(n), Octets(front), x as byte, y as byte);
  }

  // Two bit strings that agree outside a window of at most 16 places.
  lemma {:induction false} WindowIsBurst(a: seq<bool>, b: seq<bool>, from: nat, to: nat)
    requires |a| == |b| && from <= to <= |a| && to - from <= 16
    requires a[..from] == b[..from] && a[to..] == b[to..] && a != b
    ensures L.IsBurst(L.Differences(a, b), from, to, 16)
  {
    var d := L.Differences(a, b);
    assert forall i | 0 <= i < from :: a[i] == a[..from][i] && b[i] == b[..from][i];
    assert forall i | to <= i < |a| :: a[i] == a[to..][i - to] && b[i] == b[to..][i - to];
    if true !in d[from..to] {
      forall i | 0 <= i < |a|
        ensures a[i] == b[i]
      {
        assert from <= i < to ==> d[from..to][i - from] == d[i];
      }
    }
  }

  lemma {:induction false} BodyBits(front: seq<u8>, x: u8, lo: u8, hi: u8)
    ensures D.Bits(Body(front + [x], lo, hi)) ==
            D.Bits(Octets(front)) + D.BitsOf(x as byte) + D.BitsOf(lo as byte) + D.BitsOf(hi as byte)
  {
    OctetsSnoc(front, x);
    BitsSnoc(Octets(front), x as byte);
    BitsSnoc(Octets(front + [x]), lo as byte);
    BitsSnoc(Octets(front + [x]) + [lo as byte], hi as byte);
  }

  lemma {:induction false} BitsOfInjective(x: byte, y: byte)
    requires D.BitsOf(x) == D.BitsOf(y)
    ensures x == y
  {
    var s, t := D.BitsOf(x), D.BitsOf(y);
    assert s[0] == t[0] && s[1] == t[1] && s[2] == t[2] && s[3] == t[3];
    assert s[4] == t[4] && s[5] == t[5] && s[6] == t[6] && s[7] == t[7];
  }

  // Four parts of which the middle two differ.
  lemma {:induction false} MiddleIsBurst(
    a: seq<bool>, x: seq<bool>, y: seq<bool>, u: seq<bool>, v: seq<bool>, c: seq<bool>)
    requires |x| == |y| == |u| == |v| == 8 && x != y
    ensures L.IsBurst(L.Differences(a + x + u + c, a + y + v + c), |a|, |a| + 16, 16)
  {
    var p, q := a + x + u + c, a + y + v + c;
    assert p[..|a|] == a && q[..|a|] == a && p[|a| + 16..] == c && q[|a| + 16..] == c;
    assert p[|a|..|a| + 8] == x && q[|a|..|a| + 8] == y;
    WindowIsBurst(p, q, |a|, |a| + 16);
  }

  lemma {:induction false} BodyWindow(front: seq<u8>, x: u8, lo: u8, y: u8, mo: u8, hi: u8)
    requires x as byte != y as byte
    ensures var k := 8 * |front|;
            L.IsBurst(D.Damage(Body(front + [x], lo, hi), Body(front + [y], mo, hi)), k, k + 16, 16)
  {
    BodyBits(front, x, lo, hi);
    BodyBits(front, y, mo, hi);
    if D.BitsOf(x as byte) == D.BitsOf(y as byte) {
      BitsOfInjective(x as byte, y as byte);
    }
    MiddleIsBurst(D.Bits(Octets(front)), D.BitsOf(x as byte), D.BitsOf(y as byte),
                  D.BitsOf(lo as byte), D.BitsOf(mo as byte), D.BitsOf(hi as byte));
  }

  // Delivered though damaged: another payload and a burst of at most sixteen bits.
  ghost predicate Escapes(s: View<bv16>, p: seq<u8>, q: seq<u8>, lo: u8, hi: u8, k: nat)
    requires Inv(s) && |p| == |q| <= MAX_PAYLOAD
  {
    && p != q
    && L.IsBurst(D.Damage(Body(p, LowByte(Sent(p)), HighByte(Sent(p))), Body(q, lo, hi)), k, k + 16, 16)
    && Delivered(s, q, lo, hi)
  }

  lemma {:induction false} MaskChanges(x: byte)
    ensures x ^ 0x89 != x
  {
  }

  lemma {:induction false} CrossingDelivered(s: View<bv16>, front: seq<u8>, x: u8, y: u8)
    requires Inv(s) && s.phase == Idle && |front| < MAX_PAYLOAD && y as byte == x as byte ^ 0x89
    ensures var w := Sent(front + [x]);
            Delivered(s, front + [y], Flip(LowByte(w), 0xA1), HighByte(w))
  {
    var w := Sent(front + [x]);
    CcittSplits();
    WordFlipped(w);
    SentFlipped(front, x, y);
    assert Word(CCITT_CODE, LowByte(Plus(w, 0x00A1)), HighByte(Plus(w, 0x00A1))) == Plus(w, 0x00A1);
    DeliveredIff(s, front + [y], Flip(LowByte(w), 0xA1), HighByte(w));
  }

  lemma {:induction false} CrossingEscapes(s: View<bv16>, front: seq<u8>, x: u8, y: u8, lo: u8, mo: u8, hi: u8)
    requires Inv(s) && s.phase == Idle && |front| < MAX_PAYLOAD && y as byte == x as byte ^ 0x89
    requires lo == LowByte(Sent(front + [x])) && hi == HighByte(Sent(front + [x])) && mo == Flip(lo, 0xA1)
    ensures Escapes(s, front + [x], front + [y], mo, hi, 8 * |front|)
  {
    MaskChanges(x as byte);
    OtherPayload(front, x, y);
    BodyWindow(front, x, lo, y, mo, hi);
    CrossingDelivered(s, front, x, y);
  }

  /** A burst that crosses into the checksum escapes: for every payload, flipping six bits in
      the sixteen that are its last byte and the checksum's low byte makes a frame that is
      delivered with another payload. The low byte is sent first, so it is not next to the
      payload in the order the register takes bits. */
  lemma {:induction false} CrossingBurstEscapes(s: View<bv16>, front: seq<u8>, x: u8)
    requires Inv(s) && s.phase == Idle && |front| < MAX_PAYLOAD
    ensures var lo, hi := LowByte(Sent(front + [x])), HighByte(Sent(front + [x]));
            Escapes(s, front + [x], front + [Flip(x, 0x89)], Flip(lo, 0xA1), hi, 8 * |front|)
  {
    var w := Sent(front + [x]);
    FlipIs(x, 0x89);
    CrossingEscapes(s, front, x, Flip(x, 0x89), LowByte(w), Flip(LowByte(w), 0xA1), HighByte(w));
  }

  lemma {:induction false} OtherPayload(front: seq<u8>, x: u8, y: u8)
    requires x as byte != y as byte
    ensures front + [x] != front + [y]
  {
    assert (front + [x])[|front|] == x && (front + [y])[|front|] == y;
  }
}
