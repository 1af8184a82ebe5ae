/** Which damage to a message the CRC always shows: any burst of at most sixteen bits, and
    any odd number of flipped bits. */
module CrcDetection {
  import opened LinearRegister
  import opened Crc

  // A byte's bits in the order they enter the register: the most significant first.
  function BitsOf(b: byte): (s: seq<bool>)
    ensures |s| == 8
  {
    [b & 0x80 != 0, b & 0x40 != 0, b & 0x20 != 0, b & 0x10 != 0,
     b & 0x08 != 0, b & 0x04 != 0, b & 0x02 != 0, b & 0x01 != 0]
  }

  function Bits(data: seq<byte>): (s: seq<bool>)
    ensures |s| == 8 * |data|
  {
    if |data| == 0 then [] else Bits(data[..|data| - 1]) + BitsOf(data[|data| - 1])
  }

  // The register with a single one, k places from the top.
  function Unit(k: nat): bv16 {
    match k
    case 0 => 0x8000
    case 1 => 0x4000
    case 2 => 0x2000
    case 3 => 0x1000
    case 4 => 0x0800
    case 5 => 0x0400
    case 6 => 0x0200
    case 7 => 0x0100
    case 8 => 0x0080
    case 9 => 0x0040
    case 10 => 0x0020
    case 11 => 0x0010
    case 12 => 0x0008
    case 13 => 0x0004
    case 14 => 0x0002
    case 15 => 0x0001
    case _ => 0
  }

  const UNITS: seq<bv16> := seq(16, (k: nat) => Unit(k))

  lemma UnitsChain()
    ensures Chain(CCITT, UNITS)
  {
    forall i | 0 <= i < 15
      ensures BitStep(Unit(i + 1)) == Unit(i)
    {
    }
  }

  // ------------------------------------------------------------- places of the register

  function Shift(x: bv16): bv16 { x << 1 }

  predicate TopSet(x: bv16) { x & 0x8000 != 0 }

  lemma ShiftAdds(x: bv16, y: bv16)
    ensures Shift(Plus(x, y)) == Plus(Shift(x), Shift(y))
  {
  }

  lemma TopAdds(x: bv16, y: bv16)
    ensures TopSet(Plus(x, y)) == (TopSet(x) != TopSet(y))
  {
  }

  lemma CcittAddsAt(x: bv16, y: bv16)
    ensures AddsAt(Plus, Shift, TopSet, x, y)
  {
    ShiftAdds(x, y);
    TopAdds(x, y);
  }

  lemma CcittAdds()
    ensures Adds(Plus, Shift, TopSet)
  {
    forall x: bv16, y: bv16
      ensures AddsAt(Plus, Shift, TopSet, x, y)
    {
      CcittAddsAt(x, y);
    }
  }

  // Whether there is a one k places from the top.
  predicate Place(k: nat, x: bv16) { Probe(Shift, TopSet, k, x) }

  lemma {:induction false} PlaceOfZero(k: nat)
    ensures !Place(k, 0)
  {
    if k > 0 {
      assert Shift(0) == 0;
      PlaceOfZero(k - 1);
    }
  }

  lemma UnitShift(i: nat)
    requires 0 < i < 16
    ensures Shift(Unit(i)) == Unit(i - 1) && !TopSet(Unit(i))
  {
    if i < 8 {
      HighUnitShift(i);
    } else {
      LowUnitShift(i);
    }
  }

  lemma HighUnitShift(i: nat)
    requires 0 < i < 8
    ensures Shift(Unit(i)) == Unit(i - 1) && !TopSet(Unit(i))
  {
  }

  lemma LowUnitShift(i: nat)
    requires 8 <= i < 16
    ensures Shift(Unit(i)) == Unit(i - 1) && !TopSet(Unit(i))
  {
  }

  lemma UnitLeaves()
    ensures Shift(Unit(0)) == 0 && TopSet(Unit(0))
  {
  }

  lemma {:induction false} PlaceOfUnit(k: nat, i: nat)
    requires i < 16
    ensures Place(k, Unit(i)) == (k == i)
  {
    if i == 0 {
      UnitLeaves();
      if k > 0 {
        PlaceOfZero(k - 1);
      }
    } else {
      UnitShift(i);
      if k > 0 {
        PlaceOfUnit(k - 1, i - 1);
      }
    }
  }

  lemma UnitsIndependent()
    ensures Independent(CCITT, UNITS)
  {
    forall i: nat, x: bv16, y: bv16
      ensures Place(i, Plus(x, y)) == (Place(i, x) != Place(i, y))
    {
      CcittAdds();
      ProbeAdds(Plus, Shift, TopSet, i, x, y);
    }
    forall i: nat
      ensures !Place(i, 0)
    {
      PlaceOfZero(i);
    }
    forall i: nat, j | 0 <= j < 16
      ensures Place(i, UNITS[j]) == (i == j)
    {
      PlaceOfUnit(i, j);
    }
    ProbedIndependent(CCITT, UNITS, Place);
  }

  // ------------------------------------------------------------- parity of the register

  // Whether the number of ones among the sixteen places is odd.
  predicate Parity(x: bv16) { ParityOf(Shift, TopSet, x, 16) }

  lemma ParityXor(x: bv16, y: bv16)
    ensures Parity(Plus(x, y)) == (Parity(x) != Parity(y))
  {
    CcittAdds();
    ParityAdds(Plus, Shift, TopSet, x, y, 16);
  }

  lemma {:induction false} ParityOfUnit(i: nat, k: nat)
    requires i < 16
    ensures ParityOf(Shift, TopSet, Unit(i), k) == (i < k)
  {
    if k > 0 {
      ParityOfUnit(i, k - 1);
      PlaceOfUnit(k - 1, i);
    }
  }

  lemma ShiftFour(x: bv16)
    ensures Shift(Shift(Shift(Shift(x)))) == x << 4
  {
  }

  lemma PlaceStep(k: nat, x: bv16)
    ensures Place(k + 1, x) == Place(k, Shift(x))
  {
  }

  lemma PlaceFour(k: nat, x: bv16)
    ensures Place(k + 4, x) == Place(k, x << 4)
  {
    PlaceStep(k + 3, x);
    PlaceStep(k + 2, Shift(x));
    PlaceStep(k + 1, Shift(Shift(x)));
    PlaceStep(k, Shift(Shift(Shift(x))));
    ShiftFour(x);
  }

  lemma NoSeventeenth(x: bv16)
    ensures !Place(16, x)
  {
    PlaceFour(12, x);
    PlaceFour(8, x << 4);
    PlaceFour(4, (x << 4) << 4);
    PlaceFour(0, ((x << 4) << 4) << 4);
    assert (((x << 4) << 4) << 4) << 4 == 0;
    PlaceOfZero(0);
  }

  lemma PolynomialPlaces()
    ensures Plus(Plus(Unit(3), Unit(10)), Unit(15)) == 0x1021
  {
  }

  // The polynomial has three ones below its leading one, so a carry keeps the parity.
  lemma PolynomialOdd()
    ensures Parity(0x1021)
  {
    ParityOfUnit(3, 16);
    ParityOfUnit(10, 16);
    ParityOfUnit(15, 16);
    ParityXor(Unit(3), Unit(10));
    ParityXor(Plus(Unit(3), Unit(10)), Unit(15));
    PolynomialPlaces();
  }

  lemma BitStepIs(x: bv16)
    ensures BitStep(x) == if TopSet(x) then Plus(Shift(x), 0x1021) else Shift(x)
  {
  }

  lemma StepKeepsParity(x: bv16)
    ensures Parity(BitStep(x)) == Parity(x)
  {
    BitStepIs(x);
    ParityShifts(Shift, TopSet, x, 16);
    NoSeventeenth(x);
    assert ParityOf(Shift, TopSet, x, 17) == (ParityOf(Shift, TopSet, x, 16) != Place(16, x));
    if TopSet(x) {
      PolynomialOdd();
      ParityXor(Shift(x), 0x1021);
    }
  }

  lemma CcittParity()
    ensures ParityKept(CCITT, Parity)
  {
    forall x: bv16, y: bv16
      ensures Parity(Plus(x, y)) == (Parity(x) != Parity(y))
    {
      ParityXor(x, y);
    }
    forall x: bv16
      ensures Parity(BitStep(x)) == Parity(x)
    {
      StepKeepsParity(x);
    }
    ParityOfUnit(0, 16);
  }

  // ------------------------------------------------------------- bytes as bits

  function Put(x: bv16, on: bool, u: bv16): bv16 { if on then Plus(x, u) else x }

  lemma LaidStep(bits: seq<bool>, k: nat)
    requires k < |bits| && k < 16
    ensures Laid(CCITT, UNITS, bits[..k + 1]) == Put(Laid(CCITT, UNITS, bits[..k]), bits[k], Unit(k))
  {
    assert bits[..k + 1][..k] == bits[..k];
  }

  function HighNibble(b: byte): bv16 {
    Put(Put(Put(Put(0, b & 0x80 != 0, 0x8000), b & 0x40 != 0, 0x4000), b & 0x20 != 0, 0x2000), b & 0x10 != 0, 0x1000)
  }

  function AllBits(b: byte): bv16 {
    Put(Put(Put(Put(HighNibble(b), b & 0x08 != 0, 0x0800), b & 0x04 != 0, 0x0400), b & 0x02 != 0, 0x0200),
        b & 0x01 != 0, 0x0100)
  }

  lemma AllBitsIsHigh(b: byte)
    ensures AllBits(b) == High(b)
  {
  }

  lemma LaidByte(b: byte)
    ensures Laid(CCITT, UNITS, BitsOf(b)) == AllBits(b)
  {
    var s := BitsOf(b);
    LaidStep(s, 0);
    LaidStep(s, 1);
    LaidStep(s, 2);
    LaidStep(s, 3);
    LaidStep(s, 4);
    LaidStep(s, 5);
    LaidStep(s, 6);
    LaidStep(s, 7);
    assert s[..8] == s;
  }

  // The byte at a time is the bit at a time.
  lemma UpdateIsRun(crc: bv16, b: byte)
    ensures Update(crc, b) == Run(CCITT, crc, BitsOf(b))
  {
    CcittGroup();
    CcittLinear();
    UnitsChain();
    RunIsSteps(CCITT, UNITS, crc, BitsOf(b));
    LaidByte(b);
    AllBitsIsHigh(b);
  }

  lemma {:induction false} FoldIsRun(crc: bv16, data: seq<byte>)
    ensures Fold(crc, data) == Run(CCITT, crc, Bits(data))
  {
    if |data| > 0 {
      var front, last := data[..|data| - 1], data[|data| - 1];
      FoldIsRun(crc, front);
      UpdateIsRun(Fold(crc, front), last);
      RunConcat(CCITT, crc, Bits(front), BitsOf(last));
    }
  }

  // ------------------------------------------------------------- the main results

  // The flipped bits between two messages of one length, in the order they enter.
  function Damage(a: seq<byte>, b: seq<byte>): (d: seq<bool>)
    requires |a| == |b|
  {
    Differences(Bits(a), Bits(b))
  }

  lemma BitsShared(crc: bv16, a: seq<bool>, b: seq<bool>)
    requires |a| == |b|
    ensures Run(CCITT, crc, a) == Run(CCITT, crc, b) <==> Run(CCITT, CCITT.zero, Differences(a, b)) == CCITT.zero
  {
    CcittGroup();
    CcittLinear();
    LinearRegister.SharedIffSyndromeZero(CCITT, crc, a, b);
  }

  /** Two messages of one length share their CRC exactly when their difference, as a message,
      leaves the empty register empty. */
  lemma SharedIffSyndromeZero(crc: bv16, a: seq<byte>, b: seq<byte>)
    requires |a| == |b|
    ensures Fold(crc, a) == Fold(crc, b) <==> Run(CCITT, CCITT.zero, Damage(a, b)) == CCITT.zero
  {
    FoldIsRun(crc, a);
    FoldIsRun(crc, b);
    BitsShared(crc, Bits(a), Bits(b));
  }

  /** Damage within any sixteen consecutive bits changes the CRC. */
  lemma BurstDetected(crc: bv16, a: seq<byte>, b: seq<byte>, from: nat, to: nat)
    requires |a| == |b| && IsBurst(Damage(a, b), from, to, 16)
    ensures Fold(crc, a) != Fold(crc, b)
  {
    CcittGroup();
    CcittLinear();
    CcittInjective();
    UnitsChain();
    UnitsIndependent();
    BurstLeavesTrace(CCITT, UNITS, Damage(a, b), from, to);
    SharedIffSyndromeZero(crc, a, b);
  }

  /** The CRC's parity follows the parity of the message, so an odd number of flipped bits
      always changes the CRC. */
  lemma ParityFollowsMessage(crc: bv16, a: seq<byte>)
    ensures Parity(Fold(crc, a)) == (Parity(crc) != Odd(Bits(a)))
  {
    FoldIsRun(crc, a);
    CcittParity();
    RunParity(CCITT, Parity, crc, Bits(a));
  }

  lemma {:induction false} OddOfDifferences(a: seq<bool>, b: seq<bool>)
    requires |a| == |b|
    ensures Odd(Differences(a, b)) == (Odd(a) != Odd(b))
  {
    if |a| > 0 {
      var n := |a| - 1;
      assert Differences(a, b)[..n] == Differences(a[..n], b[..n]);
      OddOfDifferences(a[..n], b[..n]);
    }
  }

  lemma OddDamageDetected(crc: bv16, a: seq<byte>, b: seq<byte>)
    requires |a| == |b| && Odd(Damage(a, b))
    ensures Fold(crc, a) != Fold(crc, b)
  {
    ParityFollowsMessage(crc, a);
    ParityFollowsMessage(crc, b);
    OddOfDifferences(Bits(a), Bits(b));
  }

  // ------------------------------------------------------------- the published check value

  function FourTurns(crc: bv16): bv16 { BitStep(BitStep(BitStep(BitStep(crc)))) }

  lemma UpdateByTurns(crc: bv16, b: byte, r: bv16)
    requires FourTurns(FourTurns(Plus(crc, High(b)))) == r
    ensures Update(crc, b) == r
  {
    var c := Plus(crc, High(b));
    StepsConcat(CCITT, c, 4, 4);
    FourSteps(c);
    FourSteps(FourTurns(c));
  }

  lemma FourSteps(c: bv16)
    ensures Steps(CCITT, c, 4) == FourTurns(c)
  {
    StepsOne(c);
    StepsConcat(CCITT, c, 1, 1);
    StepsOne(BitStep(c));
    StepsConcat(CCITT, c, 2, 1);
    StepsOne(BitStep(BitStep(c)));
    StepsConcat(CCITT, c, 3, 1);
    StepsOne(BitStep(BitStep(BitStep(c))));
  }

  lemma StepsOne(c: bv16)
    ensures Steps(CCITT, c, 1) == BitStep(c)
  {
    assert Steps(CCITT, c, 0) == c;
  }

  // The digits 1 to 9 in ASCII.
  const DIGITS: seq<byte> := [0x31, 0x32, 0x33, 0x34, 0x35, 0x36, 0x37, 0x38, 0x39]

  lemma NextDigit(k: nat, crc: bv16, b: byte, r: bv16)
    requires k < 9 && DIGITS[k] == b && Fold(INIT, DIGITS[..k]) == crc
    requires FourTurns(FourTurns(Plus(crc, High(b)))) == r
    ensures Fold(INIT, DIGITS[..k + 1]) == r
  {
    assert DIGITS[..k + 1][..k] == DIGITS[..k];
    UpdateByTurns(crc, b, r);
  }

  lemma FirstThreeDigits()
    ensures Fold(INIT, DIGITS[..3]) == 0x5BCE
  {
    NextDigit(0, 0xFFFF, 0x31, 0xC782);
    NextDigit(1, 0xC782, 0x32, 0x3DBA);
    NextDigit(2, 0x3DBA, 0x33, 0x5BCE);
  }

  lemma FirstSixDigits()
    ensures Fold(INIT, DIGITS[..6]) == 0x2EF4
  {
    FirstThreeDigits();
    NextDigit(3, 0x5BCE, 0x34, 0x5349);
    NextDigit(4, 0x5349, 0x35, 0x4560);
    NextDigit(5, 0x4560, 0x36, 0x2EF4);
  }

  // The check value published for this CRC.
  lemma CheckValue()
    ensures Fold(INIT, DIGITS) == 0x29B1
  {
    FirstSixDigits();
    NextDigit(6, 0x2EF4, 0x37, 0x7718);
    NextDigit(7, 0x7718, 0x38, 0xA12B);
    NextDigit(8, 0xA12B, 0x39, 0x29B1);
    assert DIGITS[..9] == DIGITS;
  }
}
