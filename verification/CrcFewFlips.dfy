/** One, two or three flipped bits in a message of up to 66 bytes always change the CRC: over that
    distance the register does not come back to where it was. */
module CrcFewFlips {
  import opened LinearRegister
  import opened Crc
  import opened CrcDetection
  import opened FlippedBits

  // ------------------------------------------------------------- the orbit of a single one

  function SixteenTurns(c: bv16): bv16 { FourTurns(FourTurns(FourTurns(FourTurns(c)))) }

  // The register 1 after 16 a clocks.
  function Orbit(a: nat): bv16 {
    match a
    case 0 => 0x0001
    case 1 => 0x1021
    case 2 => 0x3730
    case 3 => 0xAA51
    case 4 => 0xB861
    case 5 => 0xEB23
    case 6 => 0xD849
    case 7 => 0x4563
    case 8 => 0xAEFC
    case 9 => 0x10E2
    case 10 => 0xDE1F
    case 11 => 0xD5F6
    case 12 => 0x650B
    case 13 => 0x45B4
    case 14 => 0x1566
    case 15 => 0xF0E6
    case 16 => 0x8E29
    case 17 => 0x8DDC
    case 18 => 0x6735
    case 19 => 0xF44B
    case 20 => 0x26AA
    case 21 => 0xB8E0
    case 22 => 0x6A8A
    case 23 => 0xD423
    case 24 => 0xCDE2
    case 25 => 0xBD64
    case 26 => 0x4473
    case 27 => 0x8FFC
    case 28 => 0x2535
    case 29 => 0x9FE5
    case 30 => 0xA55E
    case 31 => 0x59B0
    case 32 => 0x13FC
    case 33 => 0x78B3
    case _ => 0
  }

  lemma JumpTo11(a: nat)
    requires a < 11
    ensures SixteenTurns(Orbit(a)) == Orbit(a + 1)
  {
  }

  lemma JumpTo22(a: nat)
    requires 11 <= a < 22
    ensures SixteenTurns(Orbit(a)) == Orbit(a + 1)
  {
  }

  lemma JumpTo33(a: nat)
    requires 22 <= a < 33
    ensures SixteenTurns(Orbit(a)) == Orbit(a + 1)
  {
  }

  lemma SixteenSteps(c: bv16)
    ensures Steps(CCITT, c, 16) == SixteenTurns(c)
  {
    FourSteps(c);
    StepsConcat(CCITT, c, 4, 4);
    FourSteps(FourTurns(c));
    StepsConcat(CCITT, c, 8, 4);
    FourSteps(FourTurns(FourTurns(c)));
    StepsConcat(CCITT, c, 12, 4);
    FourSteps(FourTurns(FourTurns(FourTurns(c))));
  }

  lemma OrbitJump(a: nat)
    requires a < 33
    ensures Steps(CCITT, Orbit(a), 16) == Orbit(a + 1)
  {
    SixteenSteps(Orbit(a));
    if a < 11 {
      JumpTo11(a);
    } else if a < 22 {
      JumpTo22(a);
    } else {
      JumpTo33(a);
    }
  }

  lemma {:induction false} OrbitReached(a: nat)
    requires a <= 33
    ensures Steps(CCITT, 1, 16 * a) == Orbit(a)
  {
    forall b: nat | b < 33
      ensures Steps(CCITT, Orbit(b), 16) == Orbit(b + 1)
    {
      OrbitJump(b);
    }
    Strides(CCITT, Orbit, 16, 33, a);
  }

  predicate SingleOne(c: bv16) { c & (c - 1) == 0 }

  lemma UnitIsSingle(k: nat)
    requires k < 16
    ensures SingleOne(Unit(k))
  {
  }

  lemma OrbitIsNotSingle(a: nat)
    requires 1 <= a <= 33
    ensures !SingleOne(Orbit(a))
  {
  }

  // Below 16 clocks the one only moves up.
  lemma {:induction false} OneMovesUp(b: nat)
    requires b <= 15
    ensures Steps(CCITT, 1, b) == Unit(15 - b)
  {
    if b == 0 {
      assert Unit(15) == 1;
    } else {
      OneMovesUp(b - 1);
      UnitsChain();
      assert BitStep(Unit(16 - b)) == Unit(15 - b);
    }
  }

  lemma OrbitIsNotUnit(a: nat, k: nat)
    requires 1 <= a <= 33 && k < 16
    ensures Orbit(a) != Unit(k)
  {
    OrbitIsNotSingle(a);
    UnitIsSingle(k);
  }

  /** For 528 clocks, the bits of 66 bytes, the register does not come back to a single one at its
      lowest place: clocked on to the next multiple of 16 it would hold a single one there. */
  lemma {:induction false} NoReturn(n: nat)
    requires 1 <= n <= 528
    ensures Steps(CCITT, 1, n) != 1
  {
    var a := (n + 15) / 16;
    var b := 16 * a - n;
    OneMovesUp(b);
    OrbitReached(a);
    OrbitIsNotUnit(a, 15 - b);
    NotBack(CCITT, 1, n, b, Unit(15 - b), Orbit(a));
  }

  // The same from any single one to any other.
  lemma {:induction false} NoReturnToUnit(i: nat, k: nat, n: nat)
    requires i < 16 && k < 16 && i <= n + k && 1 <= n + k - i <= 528
    ensures Steps(CCITT, Unit(i), n) != Unit(k)
  {
    OneMovesUp(15 - i);
    OneMovesUp(15 - k);
    if Steps(CCITT, Unit(i), n) == Unit(k) {
      Onward(CCITT, 1, 15 - i, Unit(i), n, Unit(k));
      CcittInjective();
      ClockedApart(CCITT, 1, 1, 15 - k, n + k - i);
      NoReturn(n + k - i);
    }
  }

  // ------------------------------------------------------------- messages

  lemma {:induction false} TwoFlipsCancelOnlyBack(d: seq<bool>, i: nat, j: nat)
    requires BothAt(d, i, j)
    ensures Run(CCITT, CCITT.zero, d) == CCITT.zero ==> Steps(CCITT, CCITT.top, j - i) == CCITT.top
  {
    CcittGroup();
    CcittLinear();
    CcittInjective();
    TwoLeave(CCITT, d, i, j);
  }

  lemma {:induction false} TwoFlipsLeaveTrace(d: seq<bool>)
    requires Ones(d) == 2 && |d| <= 528
    ensures Run(CCITT, CCITT.zero, d) != CCITT.zero
  {
    TwoAreSomewhere(d);
    var i: nat, j: nat :| BothAt(d, i, j);
    TwoFlipsCancelOnlyBack(d, i, j);
    NoReturnToUnit(0, 0, j - i);
  }

  /** One, two or three flipped bits in a message of at most 66 bytes always change the CRC. */
  lemma FewFlipsDetected(crc: bv16, a: seq<byte>, b: seq<byte>)
    requires |a| == |b| <= 66 && 1 <= Ones(Damage(a, b)) <= 3
    ensures Fold(crc, a) != Fold(crc, b)
  {
    OddIsOnes(Damage(a, b));
    if Ones(Damage(a, b)) == 2 {
      TwoFlipsLeaveTrace(Damage(a, b));
      CrcDetection.SharedIffSyndromeZero(crc, a, b);
    } else {
      OddDamageDetected(crc, a, b);
    }
  }

  // ------------------------------------------------------------- four flips

  lemma SumOfFour(c: bv16, e: bv16, x: byte, m: byte)
    ensures Plus(Plus(c, e), High(x ^ m)) == Plus(Plus(c, High(x)), Plus(e, High(m)))
  {
  }

  lemma {:induction false} StepsOfSum(x: bv16, y: bv16, n: nat)
    ensures Steps(CCITT, Plus(x, y), n) == Plus(Steps(CCITT, x, n), Steps(CCITT, y, n))
  {
    CcittLinear();
    StepsLinear(CCITT, x, y, n);
  }

  // A byte with flipped bits, taken by a register that is already off by e.
  lemma UpdateOff(c: bv16, e: bv16, x: byte, m: byte, f: bv16)
    requires FourTurns(FourTurns(Plus(e, High(m)))) == f
    ensures Update(Plus(c, e), x ^ m) == Plus(Update(c, x), f)
  {
    SumOfFour(c, e, x, m);
    StepsOfSum(Plus(c, High(x)), Plus(e, High(m)), 8);
    FourSteps(Plus(e, High(m)));
    FourSteps(FourTurns(Plus(e, High(m))));
    StepsConcat(CCITT, Plus(e, High(m)), 4, 4);
  }

  /** Three is the limit: the four bits of the polynomial, flipped in any three bytes in a row, leave
      the CRC as it was. */
  lemma FourFlipsEscape(crc: bv16, front: seq<byte>, x: byte, y: byte, z: byte)
    ensures Fold(crc, front + [x ^ 0x01] + [y ^ 0x10] + [z ^ 0x21]) == Fold(crc, front + [x] + [y] + [z])
  {
    var c := Fold(crc, front);
    PlusCancels(c);
    UpdateOff(c, 0, x, 0x01, 0x1021);
    UpdateOff(Update(c, x), 0x1021, y, 0x10, 0x2100);
    UpdateOff(Update(Update(c, x), y), 0x2100, z, 0x21, 0);
    PlusCancels(Update(Update(Update(c, x), y), z));
    ThreeMore(crc, front, x, y, z);
    ThreeMore(crc, front, x ^ 0x01, y ^ 0x10, z ^ 0x21);
  }

  lemma {:induction false} ThreeMore(crc: bv16, front: seq<byte>, x: byte, y: byte, z: byte)
    ensures Fold(crc, front + [x] + [y] + [z]) == Update(Update(Update(Fold(crc, front), x), y), z)
  {
    FoldSnoc(crc, front, x);
    FoldSnoc(crc, front + [x], y);
    FoldSnoc(crc, front + [x] + [y], z);
  }
}
