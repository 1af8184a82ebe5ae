/** The lock-step driver of the host tests: one sender and one receiver, joined in memory. */
module IsoTpRoundTrip {
  import opened Words
  import opened IsoTpFormat
  import R = IsoTpReceiver
  import S = IsoTpSender
  import opened IsoTpTransfer

  // Between two turns of the driver's loop: both sides stand at the same frame, the sender
  // may go on, and the two agree on how much of the block is used.
  ghost predicate InStep(tx: S.View, rx: R.View, p: seq<u8>, k: nat) {
    && S.Sound(tx) && S.HasSent(tx, p, k)
    && HasReceived(rx, p, k)
    && k < FrameCount(|p|)
    && |p| <= rx.cfg.limit
    && (k > 0 ==>
          && tx.phase == S.Sending
          && tx.blockSize == rx.cfg.blockSize
          && tx.cfInBlock == rx.cfSinceFc)
  }

  // The frames of flow control the receiver builds clear the sender for the next block.
  lemma ClearToSend(tx: S.View, cfg: R.Config, f: Frame)
    requires tx.phase == S.WaitFc || tx.phase == S.Sending
    requires f.dlc == CAN_DLC && f.data == R.FlowControlFrame(cfg, FS_CTS)
    ensures S.Flow(tx, f) ==
            (tx.(blockSize := cfg.blockSize, stMin := cfg.stMin, cfInBlock := 0, phase := S.Sending), EvNone)
  {
  }

  // The sender after its frame arrived and after any flow control that answered it.
  function Answered(tx: S.View, rx: R.View, ev: Event): S.View
    requires |rx.fc| == CAN_DLC
  {
    if ev == EvSendFc then S.Flow(tx, RawFrame(rx.fc, CAN_DLC)).0 else tx
  }

  // In lock step the sender always has the next frame, and the two sides stay in step until
  // the last frame completes the message.
  lemma TurnAdvances(tx: S.View, rx: R.View, p: seq<u8>, k: nat)
    requires InStep(tx, rx, p, k)
    ensures var (tx1, sent) := S.Next(tx);
            var (rx1, ev) := R.Step(rx, FrameAt(p, k));
            && sent == Some(FrameAt(p, k).data) && FrameAt(p, k).dlc == CAN_DLC
            && rx1.cfg == rx.cfg
            && ((ev == EvMessage && rx1.content == p && k + 1 == FrameCount(|p|))
                || ((ev == EvSendFc || ev == EvNone) && |rx1.fc| == 8 && InStep(Answered(tx1, rx1, ev), rx1, p, k + 1)))
  {
    S.NextSendsNextFrame(tx, p, k);
    FrameAdvances(rx, p, k);
    FrameShape(p, k);
    var (tx1, sent) := S.Next(tx);
    var (rx1, ev) := R.Step(rx, FrameAt(p, k));
    if ev == EvSendFc {
      ClearToSend(tx1, rx.cfg, RawFrame(rx1.fc, CAN_DLC));
    }
  }

  ghost predicate Going(tx: S.Sender, rx: R.Receiver, p: seq<u8>, k: nat)
    reads tx, rx, rx.buf, rx.fcFrame
  {
    tx.Valid() && rx.Valid() && InStep(tx.Abstract(), rx.Abstract(), p, k)
  }

  // One turn of the driver on the objects.
  method Turn(tx: S.Sender, rx: R.Receiver, frame: array<u8>, ghost p: seq<u8>, ghost k: nat)
    returns (dlc: u8, ev: Event)
    requires Going(tx, rx, p, k)
    requires frame.Length == CAN_DLC && frame != rx.buf && frame != rx.fcFrame
    modifies tx, rx, rx.buf, rx.fcFrame, frame
    ensures tx.Valid() && rx.Valid()
    ensures dlc == CAN_DLC
    ensures (ev == EvMessage && rx.Abstract().content == p)
            || ((ev == EvSendFc || ev == EvNone) && Going(tx, rx, p, k + 1))
  {
    TurnAdvances(tx.Abstract(), rx.Abstract(), p, k);
    dlc := tx.NextFrame(frame);
    ev := rx.OnFrame(RawFrame(frame[..], dlc));
    if ev == EvSendFc {
      var _ := tx.OnFlowControl(RawFrame(rx.fcFrame[..], CAN_DLC));
    }
  }

  method CopyOut(rx: R.Receiver, out: array<u8>)
    requires rx.Valid() && out.Length == MAX_PAYLOAD && out != rx.buf
    modifies out
    ensures out[..rx.received] == rx.buf[..rx.received]
  {
    for i := 0 to rx.received
      invariant out[..i] == rx.buf[..i]
    {
      out[i] := rx.buf[i];
    }
  }

  // The driver's loop: it never blocks, meets no error event and never reaches its bound.
  method Exchange(tx: S.Sender, rx: R.Receiver, frame: array<u8>, out: array<u8>, ghost msg: seq<u8>)
    returns (ok: bool, outLen: u16)
    requires Going(tx, rx, msg, 0)
    requires frame.Length == CAN_DLC && frame != rx.buf && frame != rx.fcFrame
    requires out.Length == MAX_PAYLOAD && out != rx.buf && out != rx.fcFrame && out != frame
    modifies tx, rx, rx.buf, rx.fcFrame, frame, out
    ensures ok && outLen == |msg| && out[..outLen] == msg
  {
    FewFrames(|msg|);
    for guard := 0 to 20000
      invariant Going(tx, rx, msg, guard)
    {
      var dlc, ev := Turn(tx, rx, frame, msg, guard);
      if dlc == 0 {
        assert false;  // neither finished early nor blocked
      }
      if ev == EvMessage {
        CopyOut(rx, out);
        return true, rx.received;
      } else if ev != EvNone && ev != EvSendFc {
        assert false;  // no error event
      }
    }
    assert false;  // the bound on the turns is never reached
  }

  /** Every payload of 1..4095 bytes arrives, whole and unchanged, whatever block size and
      separation time the receiver asks for; any other length is refused before a frame is sent. */
  method RoundTrip(msg: seq<u8>, blockSize: u8, stMin: u8, out: array<u8>) returns (ok: bool, outLen: u16)
    requires |msg| < 0x1_0000
    requires out.Length == 4095
    modifies out
    ensures ok <==> 1 <= |msg| <= 4095
    ensures ok ==> outLen == |msg| && out[..outLen] == msg
    ensures !ok ==> out[..] == old(out[..])
  {
    var tx := new S.Sender();
    var rx := new R.Receiver(MAX_PAYLOAD, blockSize, stMin);
    var frame := new u8[CAN_DLC](_ => 0);
    var begun := tx.Begin(msg);
    if !begun {
      return false, 0;
    }
    ok, outLen := Exchange(tx, rx, frame, out, msg);
  }
}
