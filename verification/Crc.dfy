/** CRC-16/CCITT-FALSE as the parser computes it, bit by bit, and which damage it shows. */
module Crc {
  import opened LinearRegister

  type byte = bv8

  // One turn of the bit loop.
  function BitStep(crc: bv16): bv16 {
    if crc & 0x8000 != 0 then (crc << 1) ^ 0x1021 else crc << 1
  }

  function Plus(x: bv16, y: bv16): bv16 { x ^ y }

  const CCITT: Register<bv16> := Register(BitStep, Plus, 0, 0x8000)

  function High(b: byte): bv16 { (b as bv16) << 8 }

  function Update(crc: bv16, b: byte): bv16 { Steps(CCITT, Plus(crc, High(b)), 8) }

  // The register after a message.
  function Fold(crc: bv16, data: seq<byte>): bv16 {
    if |data| == 0 then crc else Update(Fold(crc, data[..|data| - 1]), data[|data| - 1])
  }

  const INIT: bv16 := 0xFFFF

  // The body of the bit loop.
  method Turn(crc: bv16) returns (r: bv16)
    ensures r == BitStep(crc)
  {
    if crc & 0x8000 != 0 {
      r := (crc << 1) ^ 0x1021;
    } else {
      r := crc << 1;
    }
  }

  method BitLoop(crc: bv16) returns (r: bv16)
    ensures r == Steps(CCITT, crc, 8)
  {
    r := crc;
    for i := 0 to 8
      invariant r == Steps(CCITT, crc, i)
    {
      r := Turn(r);
    }
  }

  method UpdateLoop(crc: bv16, b: byte) returns (r: bv16)
    ensures r == Update(crc, b)
  {
    r := BitLoop(Plus(crc, High(b)));
  }

  method Crc16(data: seq<byte>) returns (crc: bv16)
    ensures crc == Fold(INIT, data)
  {
    crc := INIT;
    for i := 0 to |data|
      invariant crc == Fold(INIT, data[..i])
    {
      crc := UpdateLoop(crc, data[i]);
      assert data[..i + 1][..i] == data[..i];
    }
    assert data[..|data|] == data;
  }

  lemma {:induction false} FoldSnoc(crc: bv16, data: seq<byte>, b: byte)
    ensures Fold(crc, data + [b]) == Update(Fold(crc, data), b)
  {
    assert (data + [b])[..|data|] == data;
  }

  lemma {:induction false} FoldConcat(crc: bv16, a: seq<byte>, b: seq<byte>)
    ensures Fold(crc, a + b) == Fold(Fold(crc, a), b)
  {
    if |b| == 0 {
      assert a + b == a;
    } else {
      FoldConcat(crc, a, b[..|b| - 1]);
      assert (a + b)[..|a + b| - 1] == a + b[..|b| - 1];
    }
  }

  // ------------------------------------------------------------- the register is linear

  lemma PlusCommutes(x: bv16, y: bv16)
    ensures Plus(x, y) == Plus(y, x)
  {
  }

  lemma PlusAssociates(x: bv16, y: bv16, z: bv16)
    ensures Plus(Plus(x, y), z) == Plus(x, Plus(y, z))
  {
  }

  lemma PlusCancels(x: bv16)
    ensures Plus(x, 0) == x && Plus(x, x) == 0
  {
  }

  lemma TopXor(x: bv16, y: bv16)
    ensures ((x ^ y) & 0x8000 != 0) <==> ((x & 0x8000 != 0) != (y & 0x8000 != 0))
  {
  }

  lemma BothCarry(x: bv16, y: bv16)
    requires x & 0x8000 != 0 && y & 0x8000 != 0
    ensures BitStep(Plus(x, y)) == Plus(BitStep(x), BitStep(y))
  {
    TopXor(x, y);
  }

  lemma NoneCarries(x: bv16, y: bv16)
    requires x & 0x8000 == 0 && y & 0x8000 == 0
    ensures BitStep(Plus(x, y)) == Plus(BitStep(x), BitStep(y))
  {
    TopXor(x, y);
  }

  lemma OneCarries(x: bv16, y: bv16)
    requires x & 0x8000 != 0 && y & 0x8000 == 0
    ensures BitStep(Plus(x, y)) == Plus(BitStep(x), BitStep(y))
  {
    TopXor(x, y);
  }

  lemma BitStepLinear(x: bv16, y: bv16)
    ensures BitStep(Plus(x, y)) == Plus(BitStep(x), BitStep(y))
  {
    if x & 0x8000 != 0 && y & 0x8000 != 0 {
      BothCarry(x, y);
    } else if x & 0x8000 != 0 {
      OneCarries(x, y);
    } else if y & 0x8000 != 0 {
      OneCarries(y, x);
      PlusCommutes(x, y);
      PlusCommutes(BitStep(x), BitStep(y));
    } else {
      NoneCarries(x, y);
    }
  }

  // The step that undoes a step.
  function UnStep(crc: bv16): bv16 {
    if crc & 1 != 0 then ((crc ^ 0x1021) >> 1) | 0x8000 else crc >> 1
  }

  lemma CarryUndone(x: bv16)
    requires x & 0x8000 != 0
    ensures UnStep((x << 1) ^ 0x1021) == x
  {
  }

  lemma ShiftUndone(x: bv16)
    requires x & 0x8000 == 0
    ensures UnStep(x << 1) == x
  {
  }

  lemma StepUndone(x: bv16)
    ensures UnStep(BitStep(x)) == x
  {
    if x & 0x8000 != 0 {
      CarryUndone(x);
    } else {
      ShiftUndone(x);
    }
  }

  lemma CcittGroup()
    ensures Group(CCITT)
  {
    forall x: bv16, y: bv16, z: bv16
      ensures GroupAt(CCITT, x, y, z)
    {
      PlusCommutes(x, y);
      PlusAssociates(x, y, z);
      PlusCancels(x);
    }
  }

  lemma CcittLinear()
    ensures Linear(CCITT)
  {
    forall x: bv16, y: bv16
      ensures BitStep(Plus(x, y)) == Plus(BitStep(x), BitStep(y))
    {
      BitStepLinear(x, y);
    }
  }

  lemma CcittInjective()
    ensures Injective(CCITT)
  {
    forall x: bv16, y: bv16 | BitStep(x) == BitStep(y)
      ensures x == y
    {
      StepUndone(x);
      StepUndone(y);
    }
  }
}
