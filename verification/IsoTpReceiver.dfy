/** The receiving half of the transport: isotp_rx_init, build_fc, rx_abort and
    isotp_rx_frame, as a class over its buffers, with the state transition it refines. */
module IsoTpReceiver {
  import opened Buffers
  import opened Words
  import opened IsoTpFormat

  datatype Phase = Idle | WaitCf

  // What the caller sets once: the longest message taken and the advertised policy.
  datatype Config = Config(limit: u16, blockSize: u8, stMin: u8)

  datatype Stats = Stats(messagesOk: u32, errSequence: u32, errOverflow: u32, errLength: u32, errUnexpected: u32)

  // The receiver's state as a value. `content` is the part of the buffer that is filled.
  datatype View = View(
    cfg: Config,
    phase: Phase,
    total: u16,
    content: seq<u8>,
    nextSn: u8,
    cfSinceFc: u16,
    fc: seq<u8>,
    stats: Stats)

  function Clamp(limit: u16): u16 { if limit > MAX_PAYLOAD then MAX_PAYLOAD else limit }

  function Start(cfg: Config): View {
    View(cfg.(limit := Clamp(cfg.limit)), Idle, 0, [], 0, 0, seq(8, _ => 0), Stats(0, 0, 0, 0, 0))
  }

  function FlowControlFrame(cfg: Config, status: u8): seq<u8> {
    [PCI_FC * 16 + status % 16, cfg.blockSize, cfg.stMin] + Pad(5)
  }

  // What holds of the receiver between calls, whatever frames it was fed.
  ghost predicate Inv(s: View) {
    && s.cfg.limit <= MAX_PAYLOAD
    && |s.content| <= s.total <= s.cfg.limit
    && s.nextSn < 16
    && |s.fc| == 8
    && (s.phase == Idle ==> |s.content| == s.total)
    && (s.phase == WaitCf ==>
          && 6 <= |s.content| < s.total
          && 8 <= s.total
          && (s.cfg.blockSize != 0 ==> s.cfSinceFc < s.cfg.blockSize))
  }

  function Abort(s: View): View {
    s.(phase := Idle, total := 0, content := [], nextSn := 0, cfSinceFc := 0)
  }

  function CountLength(s: View): View { s.(stats := s.stats.(errLength := Wrap32(s.stats.errLength + 1))) }

  function CountOverflow(s: View): View { s.(stats := s.stats.(errOverflow := Wrap32(s.stats.errOverflow + 1))) }

  function CountSequence(s: View): View { s.(stats := s.stats.(errSequence := Wrap32(s.stats.errSequence + 1))) }

  function CountUnexpected(s: View): View {
    s.(stats := s.stats.(errUnexpected := Wrap32(s.stats.errUnexpected + 1)))
  }

  function CountMessage(s: View): View { s.(stats := s.stats.(messagesOk := Wrap32(s.stats.messagesOk + 1))) }

  function SingleStep(s: View, f: Frame): (View, Event)
    requires GoodDlc(f)
  {
    var len := Low(f);
    if len == 0 || len > 7 || len + 1 > f.dlc then (Abort(CountLength(s)), EvErrLength)
    else if len > s.cfg.limit then (Abort(CountOverflow(s)), EvErrOverflow)
    else (CountMessage(s.(content := f.data[1..1 + len], total := len, phase := Idle)), EvMessage)
  }

  function FirstStep(s: View, f: Frame): (View, Event)
    requires GoodDlc(f)
  {
    if f.dlc < CAN_DLC then (Abort(CountLength(s)), EvErrLength)
    else if Declared(f) < 8 then (Abort(CountLength(s)), EvErrLength)
    else if Declared(f) > s.cfg.limit then
      (Abort(CountOverflow(s).(fc := FlowControlFrame(s.cfg, FS_OVFLW))), EvErrOverflow)
    else
      (s.(phase := WaitCf, total := Declared(f), content := f.data[2..8], nextSn := 1, cfSinceFc := 0,
          fc := FlowControlFrame(s.cfg, FS_CTS)),
       EvSendFc)
  }

  // The slice of a consecutive frame that is still wanted.
  function Taken(s: View, f: Frame): seq<u8>
    requires GoodDlc(f)
    requires |s.content| <= s.total
  {
    var remaining := s.total - |s.content|;
    f.data[1..1 + if remaining < f.dlc - 1 then remaining else f.dlc - 1]
  }

  function ConsecutiveStep(s: View, f: Frame): (View, Event)
    requires GoodDlc(f)
    requires Inv(s)
  {
    if s.phase != WaitCf then (CountUnexpected(s), EvErrUnexpected)
    else if Low(f) != s.nextSn then (Abort(CountSequence(s)), EvErrSequence)
    else
      var s1 := s.(content := s.content + Taken(s, f), nextSn := (s.nextSn + 1) % 16,
                   cfSinceFc := Wrap16(s.cfSinceFc + 1));
      if |s1.content| >= s1.total then (CountMessage(s1.(phase := Idle)), EvMessage)
      else if s.cfg.blockSize != 0 && s1.cfSinceFc >= s.cfg.blockSize then
        (s1.(cfSinceFc := 0, fc := FlowControlFrame(s.cfg, FS_CTS)), EvSendFc)
      else (s1, EvNone)
  }

  function Step(s: View, f: Frame): (r: (View, Event))
    requires Inv(s)
  {
    if !GoodDlc(f) then (CountLength(s), EvErrLength)
    else if Pci(f) == PCI_SF then SingleStep(s, f)
    else if Pci(f) == PCI_FF then FirstStep(s, f)
    else if Pci(f) == PCI_CF then ConsecutiveStep(s, f)
    else if Pci(f) == PCI_FC then (s, EvNone)
    else (CountLength(s), EvErrLength)
  }

  // No frame, however malformed, breaks the invariant or changes the policy.
  lemma StepKeepsInv(s: View, f: Frame)
    requires Inv(s)
    ensures Inv(Step(s, f).0)
    ensures Step(s, f).0.cfg == s.cfg
  {
  }

  class Receiver {
    var state: Phase
    const buf: array<u8>
    var totalLen: u16
    var received: u16
    var nextSn: u8
    var cfSinceFc: u16
    var cfg: Config
    const fcFrame: array<u8>
    var stats: Stats

    ghost predicate Shape()
      reads this
    {
      buf.Length == MAX_PAYLOAD && fcFrame.Length == CAN_DLC && buf != fcFrame && received <= MAX_PAYLOAD
    }

    ghost function Abstract(): View
      reads this, buf, fcFrame
      requires Shape()
    {
      View(cfg, state, totalLen, buf[..received], nextSn, cfSinceFc, fcFrame[..], stats)
    }

    ghost predicate Valid()
      reads this, buf, fcFrame
    {
      Shape() && Inv(Abstract())
    }

    constructor (limit: u16, blockSize: u8, stMin: u8)
      ensures Valid() && fresh(buf) && fresh(fcFrame)
      ensures Abstract() == Start(Config(limit, blockSize, stMin))
    {
      state := Idle;
      buf := new u8[MAX_PAYLOAD](_ => 0);
      fcFrame := new u8[CAN_DLC](_ => 0);
      totalLen, received, nextSn, cfSinceFc := 0, 0, 0, 0;
      cfg := Config(if limit > MAX_PAYLOAD then MAX_PAYLOAD else limit, blockSize, stMin);
      stats := Stats(0, 0, 0, 0, 0);
      new;
      assert buf[..0] == [];
      assert fcFrame[..] == seq(8, _ => 0);
    }

    method BuildFc(status: u8)
      requires Shape()
      modifies fcFrame
      ensures fcFrame[..] == FlowControlFrame(cfg, status)
    {
      fcFrame[0] := PCI_FC * 16 + status % 16;
      fcFrame[1] := cfg.blockSize;
      fcFrame[2] := cfg.stMin;
      for i := 3 to CAN_DLC
        invariant fcFrame[..3] == [PCI_FC * 16 + status % 16, cfg.blockSize, cfg.stMin]
        invariant forall j | 3 <= j < i :: fcFrame[j] == PADDING
      {
        fcFrame[i] := PADDING;
      }
      assert fcFrame[..] == fcFrame[..3] + fcFrame[3..];
      assert fcFrame[3..] == Pad(5);
    }

    method AbortReception()
      requires Shape()
      modifies this`state, this`totalLen, this`received, this`nextSn, this`cfSinceFc
      ensures Shape() && Abstract() == Abort(old(Abstract()))
    {
      state := Idle;
      totalLen, received, nextSn, cfSinceFc := 0, 0, 0, 0;
    }

    /** Takes one frame. The new state and the event are those of Step, and no byte of the
        buffer beyond the filled part is touched. */
    method OnFrame(f: Frame) returns (ev: Event)
      requires Valid()
      modifies this, buf, fcFrame
      ensures Valid()
      ensures (Abstract(), ev) == Step(old(Abstract()), f)
      ensures buf[received..] == old(buf[..])[received..]
    {
      StepKeepsInv(Abstract(), f);
      if f.dlc == 0 || f.dlc > CAN_DLC {
        stats := stats.(errLength := Wrap32(stats.errLength + 1));
        return EvErrLength;
      }
      var pci := f.data[0] / 16;
      if pci == PCI_SF {
        ev := OnSingle(f);
      } else if pci == PCI_FF {
        ev := OnFirst(f);
      } else if pci == PCI_CF {
        ev := OnConsecutive(f);
      } else if pci == PCI_FC {
        ev := EvNone;
      } else {
        stats := stats.(errLength := Wrap32(stats.errLength + 1));
        ev := EvErrLength;
      }
    }

    method OnSingle(f: Frame) returns (ev: Event)
      requires Valid() && GoodDlc(f)
      modifies this, buf
      ensures Shape() && fcFrame[..] == old(fcFrame[..])
      ensures (Abstract(), ev) == SingleStep(old(Abstract()), f)
      ensures buf[received..] == old(buf[..])[received..]
    {
      var len := f.data[0] % 16;
      if len == 0 || len > 7 || len + 1 > f.dlc {
        stats := stats.(errLength := Wrap32(stats.errLength + 1));
        AbortReception();
        return EvErrLength;
      }
      if len > cfg.limit {
        stats := stats.(errOverflow := Wrap32(stats.errOverflow + 1));
        AbortReception();
        return EvErrOverflow;
      }
      Copy(buf, 0, f.data[1..1 + len]);
      assert buf[..len] == f.data[1..1 + len];
      totalLen := len;
      received := len;
      state := Idle;
      stats := stats.(messagesOk := Wrap32(stats.messagesOk + 1));
      return EvMessage;
    }

    method OnFirst(f: Frame) returns (ev: Event)
      requires Valid() && GoodDlc(f)
      modifies this, buf, fcFrame
      ensures Shape()
      ensures (Abstract(), ev) == FirstStep(old(Abstract()), f)
      ensures buf[received..] == old(buf[..])[received..]
    {
      if f.dlc < CAN_DLC {
        stats := stats.(errLength := Wrap32(stats.errLength + 1));
        AbortReception();
        return EvErrLength;
      }
      var hi: u16, lo: u16 := f.data[0] % 16, f.data[1];
      var len: u16 := hi * 256 + lo;
      if len < 8 {
        stats := stats.(errLength := Wrap32(stats.errLength + 1));
        AbortReception();
        return EvErrLength;
      }
      if len > cfg.limit {
        stats := stats.(errOverflow := Wrap32(stats.errOverflow + 1));
        BuildFc(FS_OVFLW);
        AbortReception();
        return EvErrOverflow;
      }
      Copy(buf, 0, f.data[2..8]);
      assert buf[..6] == f.data[2..8];
      totalLen := len;
      received := 6;
      nextSn := 1;
      cfSinceFc := 0;
      state := WaitCf;
      BuildFc(FS_CTS);
      return EvSendFc;
    }

    method OnConsecutive(f: Frame) returns (ev: Event)
      requires Valid() && GoodDlc(f)
      modifies this, buf, fcFrame
      ensures Shape()
      ensures (Abstract(), ev) == ConsecutiveStep(old(Abstract()), f)
      ensures buf[received..] == old(buf[..])[received..]
    {
      if state != WaitCf {
        stats := stats.(errUnexpected := Wrap32(stats.errUnexpected + 1));
        return EvErrUnexpected;
      }
      if f.data[0] % 16 != nextSn {
        stats := stats.(errSequence := Wrap32(stats.errSequence + 1));
        AbortReception();
        return EvErrSequence;
      }
      var remaining: u16 := totalLen - received;
      var avail: u16 := f.dlc - 1;
      var take := if remaining < avail then remaining else avail;
      Copy(buf, received, f.data[1..1 + take]);
      received := received + take;
      nextSn := (nextSn + 1) % 16;
      cfSinceFc := Wrap16(cfSinceFc + 1);
      if received >= totalLen {
        state := Idle;
        stats := stats.(messagesOk := Wrap32(stats.messagesOk + 1));
        return EvMessage;
      }
      if cfg.blockSize != 0 && cfSinceFc >= cfg.blockSize {
        cfSinceFc := 0;
        BuildFc(FS_CTS);
        return EvSendFc;
      }
      return EvNone;
    }
  }
}
