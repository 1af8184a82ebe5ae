/** One, two or three flipped bits anywhere in the payload and the checksum of a frame are never
    accepted. */
module FrameFewFlips {
  import opened Words
  import L = LinearRegister
  import opened Crc
  import D = CrcDetection
  import opened FlippedBits
  import F = CrcFewFlips
  import opened FrameParser
  import opened FrameStream
  import opened FrameDamage

  /** Up to three flipped bits in the payload, with intact length and checksum, always end in a
      checksum error. */
  lemma {:induction false} FewFlipsRejected(s: View<bv16>, p: seq<u8>, q: seq<u8>)
    requires Inv(s) && s.phase == Idle && |p| == |q| <= MAX_PAYLOAD
    requires 1 <= Ones(D.Damage(Octets(p), Octets(q))) <= 3
    ensures Rejected(s, p, q)
  {
    F.FewFlipsDetected(AfterLength(|p|), Octets(p), Octets(q));
    OtherCrcRejected(s, p, q);
  }

  // ------------------------------------------------------------- payload and checksum as one message

  lemma {:induction false} LowAndHigh(r: bv16, l: byte, h: byte)
    ensures Plus(r, High(h)) == l as bv16 <==> r == (l as bv16) | High(h)
  {
  }

  lemma {:induction false} EmptyAfter(x: bv16)
    ensures L.Steps(CCITT, x, 8) == CCITT.zero <==> x == CCITT.zero
  {
    CcittGroup();
    CcittLinear();
    CcittInjective();
    L.ZeroSteps(CCITT, 8);
    if L.Steps(CCITT, x, 8) == CCITT.zero {
      L.StepsInjective(CCITT, x, CCITT.zero, 8);
    }
  }

  lemma {:induction false} SumEmpty(x: bv16, y: bv16)
    ensures Plus(x, y) == 0 <==> x == y
  {
    PlusAssociates(x, y, y);
    PlusCommutes(0, y);
    PlusCancels(x);
    PlusCancels(y);
  }

  lemma {:induction false} EqualAfter(x: bv16, y: bv16)
    ensures L.Steps(CCITT, x, 8) == L.Steps(CCITT, y, 8) <==> x == y
  {
    CcittInjective();
    if L.Steps(CCITT, x, 8) == L.Steps(CCITT, y, 8) {
      L.StepsInjective(CCITT, x, y, 8);
    }
  }

  lemma {:induction false} LowMovesUp(l: byte)
    ensures L.Steps(CCITT, l as bv16, 8) == High(l)
  {
    EightTurns(l as bv16);
    NoCarry(l);
  }

  // A register is emptied by its own bytes, and no others, the high one first.
  lemma {:induction false} OwnBytesEmpty(r: bv16, l: byte, h: byte)
    ensures Update(Update(r, h), l) == 0 <==> r == (l as bv16) | High(h)
  {
    EmptyAfter(Plus(Update(r, h), High(l)));
    SumEmpty(Update(r, h), High(l));
    LowMovesUp(l);
    EqualAfter(Plus(r, High(h)), l as bv16);
    LowAndHigh(r, l, h);
  }

  // The payload with its checksum behind it, high byte first.
  function Sealed(q: seq<u8>, lo: u8, hi: u8): seq<byte> { Octets(q) + [hi as byte] + [lo as byte] }

  lemma {:induction false} OwnBytesEmptyFold(c: bv16, data: seq<byte>, l: byte, h: byte, w: bv16)
    requires w == (l as bv16) | High(h)
    ensures Fold(c, data + [h] + [l]) == 0 <==> Fold(c, data) == w
  {
    FoldSnoc(c, data, h);
    FoldSnoc(c, data + [h], l);
    OwnBytesEmpty(Fold(c, data), l, h);
  }

  lemma {:induction false} WordEmpties(c: bv16, data: seq<byte>, lo: u8, hi: u8)
    ensures Fold(c, data + [hi as byte] + [lo as byte]) == 0 <==> Fold(c, data) == Word(CCITT_CODE, lo, hi)
  {
    WordIs(lo, hi);
    OwnBytesEmptyFold(c, data, lo as byte, hi as byte, Word(CCITT_CODE, lo, hi));
  }

  lemma {:induction false} SealedEmpties(q: seq<u8>, lo: u8, hi: u8)
    requires |q| <= MAX_PAYLOAD
    ensures Word(CCITT_CODE, lo, hi) == Sent(q) <==> Fold(AfterLength(|q|), Sealed(q, lo, hi)) == 0
  {
    FrameCrcIsFold(|q|, q);
    WordEmpties(AfterLength(|q|), Octets(q), lo, hi);
  }

  /** A frame is delivered exactly when its payload, followed by its checksum with the high byte
      first, empties the register. */
  lemma {:induction false} DeliveredIffEmpties(s: View<bv16>, q: seq<u8>, lo: u8, hi: u8)
    requires Inv(s) && s.phase == Idle && |q| <= MAX_PAYLOAD
    ensures Delivered(s, q, lo, hi) <==> Fold(AfterLength(|q|), Sealed(q, lo, hi)) == 0
  {
    DeliveredIff(s, q, lo, hi);
    SealedEmpties(q, lo, hi);
  }

  // ------------------------------------------------------------- flips in a body

  lemma {:induction false} DifferencesConcat(a: seq<bool>, b: seq<bool>, c: seq<bool>, d: seq<bool>)
    requires |a| == |b| && |c| == |d|
    ensures L.Differences(a + c, b + d) == L.Differences(a, b) + L.Differences(c, d)
  {
  }

  // The flips in one byte.
  function Flips(x: byte, y: byte): nat { Ones(L.Differences(D.BitsOf(x), D.BitsOf(y))) }

  lemma {:induction false} OneByteMore(a: seq<byte>, b: seq<byte>, x: byte, y: byte)
    requires |a| == |b|
    ensures Ones(D.Damage(a + [x], b + [y])) == Ones(D.Damage(a, b)) + Flips(x, y)
  {
    BitsSnoc(a, x);
    BitsSnoc(b, y);
    DifferencesConcat(D.Bits(a), D.Bits(b), D.BitsOf(x), D.BitsOf(y));
    OnesConcat(D.Damage(a, b), L.Differences(D.BitsOf(x), D.BitsOf(y)));
  }

  // The order of the last two bytes does not change how many bits differ.
  lemma {:induction false} EitherOrder(a: seq<byte>, b: seq<byte>, x: byte, y: byte, u: byte, v: byte)
    requires |a| == |b|
    ensures Ones(D.Damage(a + [x] + [y], b + [u] + [v])) == Ones(D.Damage(a + [y] + [x], b + [v] + [u]))
  {
    OneByteMore(a, b, x, u);
    OneByteMore(a + [x], b + [u], y, v);
    OneByteMore(a, b, y, v);
    OneByteMore(a + [y], b + [v], x, u);
  }

  lemma {:induction false} SealedFlips(p: seq<u8>, l: u8, h: u8, q: seq<u8>, lo: u8, hi: u8)
    requires |p| == |q|
    ensures Ones(D.Damage(Sealed(p, l, h), Sealed(q, lo, hi))) == Ones(D.Damage(Body(p, l, h), Body(q, lo, hi)))
  {
    EitherOrder(Octets(p), Octets(q), l as byte, h as byte, lo as byte, hi as byte);
  }

  lemma {:induction false} FewFlipsUndelivered(
    s: View<bv16>, p: seq<u8>, l: u8, h: u8, q: seq<u8>, lo: u8, hi: u8)
    requires Inv(s) && s.phase == Idle && |p| == |q| <= MAX_PAYLOAD
    requires Word(CCITT_CODE, l, h) == Sent(p)
    requires 1 <= Ones(D.Damage(Sealed(p, l, h), Sealed(q, lo, hi))) <= 3
    ensures !Delivered(s, q, lo, hi)
  {
    SealedEmpties(p, l, h);
    DeliveredIffEmpties(s, q, lo, hi);
    F.FewFlipsDetected(AfterLength(|p|), Sealed(p, l, h), Sealed(q, lo, hi));
  }

  /** Up to three flipped bits anywhere in payload and checksum are never accepted. */
  lemma {:induction false} FewBodyFlipsRejected(s: View<bv16>, p: seq<u8>, q: seq<u8>, lo: u8, hi: u8)
    requires Inv(s) && s.phase == Idle && |p| == |q| <= MAX_PAYLOAD
    requires 1 <= Ones(D.Damage(Body(p, LowByte(Sent(p)), HighByte(Sent(p))), Body(q, lo, hi))) <= 3
    ensures !Delivered(s, q, lo, hi)
  {
    CcittSplits();
    SealedFlips(p, LowByte(Sent(p)), HighByte(Sent(p)), q, lo, hi);
    FewFlipsUndelivered(s, p, LowByte(Sent(p)), HighByte(Sent(p)), q, lo, hi);
  }
}
