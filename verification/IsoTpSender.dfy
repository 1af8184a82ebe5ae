/** The sending half of the transport: isotp_tx_begin, isotp_tx_next and
    isotp_tx_flow_control, as a class, with the state transitions it refines. */
module IsoTpSender {
  import opened Buffers
  import opened Words
  import opened IsoTpFormat

  datatype Phase = Idle | WaitFc | Sending | Done | Aborted

  datatype View = View(
    payload: seq<u8>,
    phase: Phase,
    sent: u16,
    nextSn: u8,
    blockSize: u8,
    stMin: u8,
    cfInBlock: u16,
    waitCount: u32)

  function Zeroed(): View { View([], Idle, 0, 0, 0, 0, 0, 0) }

  function Start(p: seq<u8>): View { View(p, Idle, 0, 1, 0, 0, 0, 0) }

  // A sender that is zeroed, or that isotp_tx_begin accepted, at any later point.
  ghost predicate Sound(s: View) {
    && |s.payload| <= MAX_PAYLOAD
    && s.sent <= |s.payload|
    && s.nextSn < 16
  }

  function NextConsecutive(s: View): (View, Option<seq<u8>>)
    requires Sound(s)
  {
    if s.blockSize != 0 && s.cfInBlock >= s.blockSize then (s.(phase := WaitFc), None)
    else
      var remaining := |s.payload| - s.sent;
      var take := if remaining > 7 then 7 else remaining;
      (s.(sent := s.sent + take, nextSn := (s.nextSn + 1) % 16, cfInBlock := Wrap16(s.cfInBlock + 1),
          phase := if s.sent + take >= |s.payload| then Done else s.phase),
       Some([PCI_CF * 16 + s.nextSn % 16] + s.payload[s.sent..s.sent + take] + Pad(7 - take)))
  }

  // One call of isotp_tx_next: the eight bytes to put on the bus, or None for a result of 0.
  function Next(s: View): (r: (View, Option<seq<u8>>))
    requires Sound(s)
    ensures Sound(r.0)
  {
    match s.phase
    case Idle =>
      var n := |s.payload|;
      if n <= 7 then
        (s.(sent := n, phase := Done), Some([PCI_SF * 16 + n % 16] + s.payload + Pad(7 - n)))
      else
        (s.(sent := 6, phase := WaitFc), Some([PCI_FF * 16 + n / 256 % 16, n % 256] + s.payload[..6]))
    case Sending => NextConsecutive(s)
    case _ => (s, None)
  }

  // One call of isotp_tx_flow_control on whatever the peer sent.
  function Flow(s: View, f: Frame): (r: (View, Event))
    ensures Sound(s) ==> Sound(r.0)
  {
    if f.dlc < 3 then (s, EvErrLength)
    else if Pci(f) != PCI_FC then (s, EvErrUnexpected)
    else if s.phase != WaitFc && s.phase != Sending then (s, EvErrUnexpected)
    else if Low(f) == FS_CTS then
      (s.(blockSize := f.data[1], stMin := f.data[2], cfInBlock := 0, phase := Sending), EvNone)
    else if Low(f) == FS_WAIT then (s.(waitCount := Wrap32(s.waitCount + 1), phase := WaitFc), EvNone)
    else if Low(f) == FS_OVFLW then (s.(phase := Aborted), EvErrOverflow)
    else (s.(phase := Aborted), EvErrUnexpected)
  }

  // A sender that was never begun puts one single frame without bytes on the bus and is then
  // silent; it takes no flow control.
  lemma ZeroedSendsEmptyFrame(f: Frame)
    ensures var (s, out) := Next(Zeroed());
            out == Some([PCI_SF * 16] + Pad(7)) && Next(s) == (s, None) && Flow(s, f).0 == s
    ensures Flow(Zeroed(), f).0 == Zeroed()
  {
    var none: seq<u8> := [];
    assert [PCI_SF * 16 + 0 % 16] + none + Pad(7) == [PCI_SF * 16] + Pad(7);
  }

  // ------------------------------------------------------------- progress through a payload

  // The sender has put the first k frames of the segmentation of p on the bus.
  ghost predicate HasSent(s: View, p: seq<u8>, k: nat) {
    && Sendable(p)
    && k <= FrameCount(|p|)
    && s.payload == p
    && (s.phase == Idle <==> k == 0)
    && (s.phase == Done <==> k == FrameCount(|p|))
    && (k == 0 || |p| <= 7 ==> s.nextSn == 1)
    && (k == 0 ==> s.sent == 0)
    && (k > 0 && |p| <= 7 ==> s.sent == |p|)
    && (k > 0 && |p| >= 8 ==> s.sent == Carried(|p|, k - 1) && s.nextSn == k % 16)
    && s.cfInBlock <= if k == 0 then 0 else k - 1
  }

  // The block the peer granted is used up.
  predicate Exhausted(s: View) { s.blockSize != 0 && s.cfInBlock >= s.blockSize }

  // One consecutive frame more: the numbers of the sender after k frames give frame k.
  lemma NextConsecutiveIsFrame(s: View, p: seq<u8>, k: nat)
    requires Sound(s) && HasSent(s, p, k) && s.phase == Sending && !Exhausted(s)
    ensures |p| >= 8 && 0 < k < FrameCount(|p|)
    ensures NextConsecutive(s).1 == Some(FrameAt(p, k).data)
    ensures HasSent(NextConsecutive(s).0, p, k + 1)
  {
    var n := |p|;
    assert s.sent == Carried(n, k - 1);
    CarriedStep(n, k);
    SnStep(k);
  }

  // A call puts on the bus nothing, or exactly the next frame of the segmentation; and it
  // is silent precisely when it may not send.
  lemma NextSendsNextFrame(s: View, p: seq<u8>, k: nat)
    requires Sound(s) && HasSent(s, p, k)
    ensures var (s1, out) := Next(s);
            && Sound(s1)
            && HasSent(s1, p, if out.Some? then k + 1 else k)
            && (out.Some? ==> k < FrameCount(|p|) && out.value == FrameAt(p, k).data)
            && (out.Some? <==> s.phase == Idle || (s.phase == Sending && !Exhausted(s)))
            && (out == None ==> s1 == if s.phase == Sending then s.(phase := WaitFc) else s)
  {
    if s.phase == Sending && !Exhausted(s) {
      NextConsecutiveIsFrame(s, p, k);
    } else if s.phase == Idle && |p| >= 8 {
      CarriedAll(|p|);
    }
  }

  // How a call counts towards the block; the counter never reaches its width.
  lemma NextCounts(s: View, p: seq<u8>, k: nat)
    requires Sound(s) && HasSent(s, p, k)
    ensures var (s1, out) := Next(s);
            && s1.blockSize == s.blockSize
            && (s1.phase == Sending ==> s.phase == Sending)
            && s1.cfInBlock == s.cfInBlock + (if out.Some? && k > 0 then 1 else 0)
            && (out.Some? && k > 0 && s.blockSize != 0 ==> s1.cfInBlock <= s.blockSize)
  {
    FewFrames(|p|);
  }

  // No frame of the peer moves the sender along the payload.
  lemma FlowKeepsProgress(s: View, f: Frame, p: seq<u8>, k: nat)
    requires Sound(s) && HasSent(s, p, k)
    ensures Sound(Flow(s, f).0) && HasSent(Flow(s, f).0, p, k)
  {
  }

  // It waits for flow control, or works within a block.
  predicate Listens(s: View) { s.phase == WaitFc || s.phase == Sending }

  // A flow-control frame: 3n, of three bytes at least.
  predicate IsFlowControl(f: Frame) { f.dlc >= 3 && 0x30 <= f.data[0] < 0x40 }

  // What the caller is told of a frame of the peer, and what becomes of the sender, by the frame and
  // by whether the sender listens. 30 clears it to send, 31 holds it, and 32 or anything above aborts.
  lemma FlowInNumbers(s: View, f: Frame)
    ensures var (s1, ev) := Flow(s, f);
            && (ev == EvErrLength <==> f.dlc < 3)
            && (ev == EvNone <==> Listens(s) && IsFlowControl(f) && f.data[0] <= 0x31)
            && (ev == EvErrOverflow <==> Listens(s) && IsFlowControl(f) && f.data[0] == 0x32)
            && (ev == EvErrUnexpected <==> f.dlc >= 3 && !(Listens(s) && IsFlowControl(f) && f.data[0] <= 0x32))
    ensures var (s1, ev) := Flow(s, f);
            if !(Listens(s) && IsFlowControl(f)) then s1 == s
            else if f.data[0] == 0x30 then
              s1 == s.(phase := Sending, blockSize := f.data[1], stMin := f.data[2], cfInBlock := 0)
            else if f.data[0] == 0x31 then s1 == s.(phase := WaitFc, waitCount := Wrap32(s.waitCount + 1))
            else s1 == s.(phase := Aborted)
  {
  }

  class Sender {
    var state: Phase
    var payload: seq<u8>
    var totalLen: u16
    var sent: u16
    var nextSn: u8
    var blockSize: u8
    var stMin: u8
    var cfInBlock: u16
    var waitCount: u32

    ghost function Abstract(): View
      reads this
    {
      View(payload, state, sent, nextSn, blockSize, stMin, cfInBlock, waitCount)
    }

    // Zeroed, or begun once or more.
    ghost predicate Valid()
      reads this
    {
      Sound(Abstract()) && totalLen == |payload|
    }

    constructor ()
      ensures Valid() && Abstract() == Zeroed()
    {
      state, payload, totalLen, sent, nextSn := Idle, [], 0, 0, 0;
      blockSize, stMin, cfInBlock, waitCount := 0, 0, 0, 0;
    }

    method Begin(p: seq<u8>) returns (ok: bool)
      requires |p| < 0x1_0000
      modifies this
      ensures ok <==> 1 <= |p| <= 4095
      ensures ok ==> Valid() && Abstract() == Start(p)
      ensures !ok ==> unchanged(this)
    {
      if |p| == 0 || |p| > MAX_PAYLOAD {
        return false;
      }
      payload, totalLen, sent, nextSn, state := p, |p|, 0, 1, Idle;
      blockSize, stMin, cfInBlock, waitCount := 0, 0, 0, 0;
      return true;
    }

    /** The next frame to put on the bus, written to `out`; the result is its length, or 0
        when there is nothing to send now, and then `out` keeps its bytes. */
    method NextFrame(out: array<u8>) returns (dlc: u8)
      requires Valid() && out.Length == CAN_DLC
      modifies this, out
      ensures Valid() && Abstract() == Next(old(Abstract())).0
      ensures Next(old(Abstract())).1 == if dlc == 0 then None else Some(out[..])
      ensures dlc == 0 || dlc == CAN_DLC
      ensures dlc == 0 ==> out[..] == old(out[..])
    {
      match state {
        case Idle =>
          if totalLen <= 7 {
            Compose(out, PCI_SF * 16 + totalLen % 16, payload);
            sent, state := totalLen, Done;
            return CAN_DLC;
          }
          out[0], out[1] := PCI_FF * 16 + totalLen / 256 % 16, totalLen % 256;
          Copy(out, 2, payload[..6]);
          assert out[..] == [PCI_FF * 16 + totalLen / 256 % 16, totalLen % 256] + payload[..6];
          sent, state := 6, WaitFc;
          return CAN_DLC;
        case Sending =>
          if blockSize != 0 && cfInBlock >= blockSize {
            state := WaitFc;
            return 0;
          }
          var remaining: u16 := totalLen - sent;
          var take := if remaining > 7 then 7 else remaining;
          Compose(out, PCI_CF * 16 + nextSn % 16, payload[sent..sent + take]);
          sent := sent + take;
          nextSn := (nextSn + 1) % 16;
          cfInBlock := Wrap16(cfInBlock + 1);
          if sent >= totalLen {
            state := Done;
          }
          return CAN_DLC;
        case _ =>
          return 0;
      }
    }

    /** Takes a frame of the peer; anything but a well-formed flow-control frame at the
        right time leaves the sender as it was. */
    method OnFlowControl(f: Frame) returns (ev: Event)
      requires Valid()
      modifies this
      ensures Valid() && (Abstract(), ev) == Flow(old(Abstract()), f)
    {
      if f.dlc < 3 {
        return EvErrLength;
      }
      if f.data[0] / 16 != PCI_FC {
        return EvErrUnexpected;
      }
      if state != WaitFc && state != Sending {
        return EvErrUnexpected;
      }
      var status := f.data[0] % 16;
      if status == FS_CTS {
        blockSize, stMin, cfInBlock, state := f.data[1], f.data[2], 0, Sending;
        return EvNone;
      } else if status == FS_WAIT {
        waitCount, state := Wrap32(waitCount + 1), WaitFc;
        return EvNone;
      } else if status == FS_OVFLW {
        state := Aborted;
        return EvErrOverflow;
      } else {
        state := Aborted;
        return EvErrUnexpected;
      }
    }
  }

  // A frame of one control byte and up to seven payload bytes, padded to full length.
  method Compose(out: array<u8>, pci: u8, bytes: seq<u8>)
    requires out.Length == CAN_DLC && |bytes| <= 7
    modifies out
    ensures out[..] == [pci] + bytes + Pad(7 - |bytes|)
  {
    forall i | 0 <= i < CAN_DLC {
      out[i] := PADDING;
    }
    out[0] := pci;
    Copy(out, 1, bytes);
  }
}
