/** The frames of ISO 15765-2 on classical CAN and the segmentation of a payload into them.

    A byte is an int in 0..255, so the source's `>> 4` and `& 0x0F` are division and
    remainder by 16, and an `|` of disjoint bit fields is a sum. */
module IsoTpFormat {
  import opened Words

  const MAX_PAYLOAD := 4095
  const CAN_DLC := 8

  const PCI_SF := 0
  const PCI_FF := 1
  const PCI_CF := 2
  const PCI_FC := 3

  const FS_CTS := 0
  const FS_WAIT := 1
  const FS_OVFLW := 2

  const PADDING: u8 := 0xCC

  datatype Event =
    | EvNone
    | EvMessage
    | EvSendFc
    | EvErrSequence
    | EvErrOverflow
    | EvErrLength
    | EvErrUnexpected

  // A received frame: a data length code, and a buffer that holds as many of the at most
  // eight bytes as the code announces. The code itself may be anything.
  datatype RawFrame = RawFrame(data: seq<u8>, dlc: u8)

  type Frame = f: RawFrame | f.dlc <= |f.data| || CAN_DLC <= |f.data| witness RawFrame([], 0)

  predicate GoodDlc(f: Frame) { 1 <= f.dlc <= CAN_DLC }

  // High and low nibble of the protocol control byte.
  function Pci(f: Frame): u8
    requires 1 <= |f.data|
  {
    f.data[0] / 16
  }

  function Low(f: Frame): u8
    requires 1 <= |f.data|
  {
    f.data[0] % 16
  }

  // The 12-bit length a first frame declares.
  function Declared(f: Frame): u16
    requires 2 <= |f.data|
  {
    Low(f) * 256 + f.data[1]
  }

  // ------------------------------------------------------------- segmentation

  function Pad(n: nat): seq<u8> { seq(n, _ => PADDING) }

  // How many consecutive frames a multi-frame payload of n bytes needs: the bytes beyond
  // the first six, seven to a frame, rounded up.
  function CfCount(n: nat): nat
    requires n >= 8
  {
    (n - 6 + (7 - 1)) / 7
  }

  // How many payload bytes the first frame and `cfs` consecutive frames carry together.
  function Carried(n: nat, cfs: nat): nat
    requires n >= 8
  {
    if 6 + 7 * cfs < n then 6 + 7 * cfs else n
  }

  function SingleFrame(p: seq<u8>): Frame
    requires 1 <= |p| <= 7
  {
    RawFrame([|p|] + p + Pad(7 - |p|), 8)
  }

  function FirstFrame(p: seq<u8>): Frame
    requires 8 <= |p| <= MAX_PAYLOAD
  {
    RawFrame([PCI_FF * 16 + |p| / 256, |p| % 256] + p[..6], 8)
  }

  // Consecutive frame number i, counting from 0; its sequence number is i + 1 modulo 16.
  function ConsecutiveFrame(p: seq<u8>, i: nat): Frame
    requires 8 <= |p| <= MAX_PAYLOAD
  {
    var from, to := Carried(|p|, i), Carried(|p|, i + 1);
    RawFrame([PCI_CF * 16 + (i + 1) % 16] + p[from..to] + Pad(7 - (to - from)), 8)
  }

  predicate Sendable(p: seq<u8>) { 1 <= |p| <= MAX_PAYLOAD }

  function FrameCount(n: nat): nat
    requires n >= 1
  {
    if n <= 7 then 1 else 1 + CfCount(n)
  }

  // The k-th frame of the one segmentation of p.
  function FrameAt(p: seq<u8>, k: nat): Frame
    requires Sendable(p)
    requires k < FrameCount(|p|)
  {
    if |p| <= 7 then SingleFrame(p)
    else if k == 0 then FirstFrame(p)
    else ConsecutiveFrame(p, k - 1)
  }

  function Segmentation(p: seq<u8>): (fs: seq<Frame>)
    requires Sendable(p)
  {
    seq(FrameCount(|p|), k requires 0 <= k < FrameCount(|p|) => FrameAt(p, k))
  }

  // Frames from..to of the segmentation, in order.
  predicate Carries(fs: seq<Frame>, p: seq<u8>, from: nat, to: nat)
    requires Sendable(p)
  {
    && from <= to <= FrameCount(|p|)
    && |fs| == to - from
    && forall k {:trigger FrameAt(p, k)} | from <= k < to :: fs[k - from] == FrameAt(p, k)
  }

  // A frame's payload bytes in the segmentation.
  function Bytes(p: seq<u8>, k: nat): seq<u8>
    requires Sendable(p)
    requires k < FrameCount(|p|)
  {
    var f := FrameAt(p, k);
    if |p| <= 7 then f.data[1..1 + |p|]
    else if k == 0 then f.data[2..8]
    else f.data[1..1 + Carried(|p|, k) - Carried(|p|, k - 1)]
  }

  function Joined(p: seq<u8>, k: nat): seq<u8>
    requires Sendable(p)
    requires k <= FrameCount(|p|)
  {
    if k == 0 then [] else Joined(p, k - 1) + Bytes(p, k - 1)
  }

  // All but the last consecutive frame are full, and the last one completes the payload.
  lemma CarriedAll(n: nat)
    requires n >= 8
    ensures Carried(n, CfCount(n)) == n
    ensures forall c: nat | c < CfCount(n) :: Carried(n, c) == 6 + 7 * c < n
  {
  }

  // What consecutive frame k - 1 adds, and when it is the last.
  lemma CarriedStep(n: nat, k: nat)
    requires n >= 8 && 1 <= k < FrameCount(n)
    ensures Carried(n, k - 1) == 6 + 7 * (k - 1) < n
    ensures Carried(n, k) == Carried(n, k - 1) + if n - Carried(n, k - 1) > 7 then 7 else n - Carried(n, k - 1)
    ensures Carried(n, k) == n <==> k + 1 == FrameCount(n)
  {
  }

  // The eight bytes of frame k as numbers. A single frame is 0n and its bytes; a first frame 1n nn, the
  // length in twelve bits, and six bytes; consecutive frame k is 2n, k modulo 16, and the seven bytes
  // from 7 k - 1 on; and what is left over is 0xCC.
  lemma FrameInNumbers(p: seq<u8>, k: nat, i: nat)
    requires Sendable(p) && k < FrameCount(|p|) && 1 <= i < 8
    ensures var d := FrameAt(p, k).data;
            && |d| == 8 && FrameAt(p, k).dlc == 8
            && (|p| <= 7 ==> d[0] == |p| && d[i] == ByteOr(p, i - 1))
            && (|p| >= 8 && k == 0 ==>
                  d[0] == 0x10 + |p| / 256 && d[1] == |p| % 256 && (i >= 2 ==> d[i] == ByteOr(p, i - 2)))
            && (|p| >= 8 && k > 0 ==> d[0] == 0x20 + k % 16 && d[i] == ByteOr(p, 7 * k - 2 + i))
  {
    if |p| >= 8 && k > 0 {
      CarriedStep(|p|, k);
    }
  }

  function ByteOr(p: seq<u8>, i: nat): u8 { if i < |p| then p[i] else 0xCC }

  // What can be sent is 1 to 4095 bytes, and a payload of more than seven takes the fewest frames that
  // carry six bytes and then seven each.
  lemma SendableInNumbers(p: seq<u8>)
    ensures Sendable(p) <==> 1 <= |p| <= 4095
    ensures 1 <= |p| <= 7 ==> FrameCount(|p|) == 1
    ensures |p| >= 8 ==> 6 + 7 * (FrameCount(|p|) - 2) < |p| <= 6 + 7 * (FrameCount(|p|) - 1)
  {
  }

  lemma FewFrames(n: nat)
    requires 1 <= n <= MAX_PAYLOAD
    ensures FrameCount(n) <= 586
  {
  }

  // Sequence numbers count frames modulo 16.
  lemma SnStep(k: nat)
    ensures (k % 16 + 1) % 16 == (k + 1) % 16
  {
  }

  lemma BytesOfConsecutive(p: seq<u8>, k: nat)
    requires 8 <= |p| <= MAX_PAYLOAD && 1 <= k < FrameCount(|p|)
    ensures Bytes(p, k) == p[Carried(|p|, k - 1)..Carried(|p|, k)]
    ensures p[..Carried(|p|, k - 1)] + Bytes(p, k) == p[..Carried(|p|, k)]
  {
    CarriedStep(|p|, k);
    var from, to := Carried(|p|, k - 1), Carried(|p|, k);
    var middle := p[from..to];
    assert FrameAt(p, k).data == [PCI_CF * 16 + k % 16] + middle + Pad(7 - |middle|);
  }

  // The frames of the segmentation carry the payload, each byte once and in order.
  lemma JoinedIsPrefix(p: seq<u8>, k: nat)
    requires Sendable(p)
    requires k <= FrameCount(|p|)
    ensures k >= 1 && |p| >= 8 ==> Joined(p, k) == p[..Carried(|p|, k - 1)]
    ensures k == FrameCount(|p|) ==> Joined(p, k) == p
  {
    if |p| <= 7 {
      JoinedSingle(p);
    } else if k >= 1 {
      JoinedMany(p, k);
      AllBytes(p);
    }
  }

  lemma {:induction false} JoinedMany(p: seq<u8>, k: nat)
    requires 8 <= |p| <= MAX_PAYLOAD && 1 <= k <= FrameCount(|p|)
    ensures Joined(p, k) == p[..Carried(|p|, k - 1)]
  {
    if k > 1 {
      JoinedMany(p, k - 1);
    }
    JoinedStep(p, k - 1);
  }

  lemma JoinedSingle(p: seq<u8>)
    requires 1 <= |p| <= 7
    ensures Joined(p, 1) == p
  {
    assert SingleFrame(p).data[1..1 + |p|] == p;
    assert Joined(p, 0) == [];
  }

  lemma AllBytes(p: seq<u8>)
    requires 8 <= |p|
    ensures p[..Carried(|p|, CfCount(|p|))] == p
  {
    CarriedAll(|p|);
  }

  lemma JoinedStep(p: seq<u8>, k: nat)
    requires 8 <= |p| <= MAX_PAYLOAD && k < FrameCount(|p|)
    requires k >= 1 ==> Joined(p, k) == p[..Carried(|p|, k - 1)]
    ensures Joined(p, k + 1) == p[..Carried(|p|, k)]
  {
    if k == 0 {
      assert Bytes(p, 0) == p[..6];
    } else {
      BytesOfConsecutive(p, k);
    }
  }
}
