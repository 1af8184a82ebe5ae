/** One transfer seen from the receiver: what it holds after the first frames of a
    segmentation, and what a gap in them does. */
module IsoTpTransfer {
  import opened Words
  import opened IsoTpFormat
  import R = IsoTpReceiver

  // The receiver has taken the first r frames of the segmentation of p, in order. Before the
  // first it may be idle or in the middle of anything.
  ghost predicate HasReceived(s: R.View, p: seq<u8>, r: nat) {
    && R.Inv(s)
    && Sendable(p)
    && r <= FrameCount(|p|)
    && (r > 0 ==> (s.phase == R.WaitCf <==> r < FrameCount(|p|)))
    && (r == FrameCount(|p|) ==> s.content == p)
    && (0 < r < FrameCount(|p|) ==>
          s.total == |p| && s.content == p[..Carried(|p|, r - 1)] && s.nextSn == r % 16)
  }

  // A frame of the segmentation is a full frame, marked by its kind and number.
  lemma FrameShape(p: seq<u8>, k: nat)
    requires Sendable(p) && k < FrameCount(|p|)
    ensures var f := FrameAt(p, k);
            && |f.data| == 8 && f.dlc == 8
            && (|p| <= 7 ==> Pci(f) == PCI_SF && Low(f) == |p| && f.data[1..1 + |p|] == p)
            && (|p| >= 8 && k == 0 ==> Pci(f) == PCI_FF && Declared(f) == |p| && f.data[2..8] == p[..6])
            && (|p| >= 8 && k > 0 ==>
                  && Pci(f) == PCI_CF && Low(f) == k % 16
                  && var a, b := Carried(|p|, k - 1), Carried(|p|, k);
                     b - a <= 7 && f.data[1..1 + b - a] == p[a..b])
  {
    if |p| >= 8 {
      if k > 0 {
        CarriedStep(|p|, k);
      }
    }
  }

  // The event of the next in-order frame: flow control after the first frame and after
  // each full block, the message at the end, silence otherwise.
  function ExpectedEvent(s: R.View, p: seq<u8>, r: nat): Event
    requires Sendable(p) && r < FrameCount(|p|)
  {
    if r + 1 == FrameCount(|p|) then EvMessage
    else if r == 0 then EvSendFc
    else if s.cfg.blockSize != 0 && s.cfSinceFc + 1 >= s.cfg.blockSize then EvSendFc
    else EvNone
  }

  lemma NextConsecutiveTaken(s: R.View, p: seq<u8>, r: nat)
    requires HasReceived(s, p, r) && 0 < r < FrameCount(|p|)
    ensures GoodDlc(FrameAt(p, r)) && R.Taken(s, FrameAt(p, r)) == p[Carried(|p|, r - 1)..Carried(|p|, r)]
    ensures s.content + R.Taken(s, FrameAt(p, r)) == p[..Carried(|p|, r)]
  {
    FrameShape(p, r);
    CarriedStep(|p|, r);
    var a, b := Carried(|p|, r - 1), Carried(|p|, r);
    assert p[..a] + p[a..b] == p[..b];
  }

  lemma FrameAdvances(s: R.View, p: seq<u8>, r: nat)
    requires HasReceived(s, p, r) && r < FrameCount(|p|) && |p| <= s.cfg.limit
    ensures var (s1, ev) := R.Step(s, FrameAt(p, r));
            && HasReceived(s1, p, r + 1)
            && s1.cfg == s.cfg
            && ev == ExpectedEvent(s, p, r)
            && (ev == EvSendFc ==> s1.cfSinceFc == 0 && s1.fc == R.FlowControlFrame(s.cfg, FS_CTS))
            && (ev == EvNone ==> s1.cfSinceFc == Wrap16(s.cfSinceFc + 1))
  {
    var n := |p|;
    FrameShape(p, r);
    R.StepKeepsInv(s, FrameAt(p, r));
    if n >= 8 && r > 0 {
      NextConsecutiveTaken(s, p, r);
      CarriedStep(n, r);
      assert p[..n] == p;
      SnStep(r);
    }
  }

  // When `gap` frames are missing before the next one arrives, the sequence number gives the
  // loss away just when the gap is no multiple of 16. Otherwise the later bytes (and, of the
  // last frame, its padding) are taken in place of the missing ones, and only the length
  // stays short.
  lemma GapDetected(s: R.View, p: seq<u8>, r: nat, gap: nat)
    requires HasReceived(s, p, r) && 0 < r && r + gap < FrameCount(|p|)
    ensures var (s1, ev) := R.Step(s, FrameAt(p, r + gap));
            && (ev == EvErrSequence <==> gap % 16 != 0)
            && (gap % 16 == 0 && gap > 0 ==>
                  s1.phase == R.WaitCf && s1.content == p[..Carried(|p|, r - 1)] + FrameAt(p, r + gap).data[1..8])
  {
    FrameShape(p, r + gap);
    SnGap(r, gap);
    if gap % 16 == 0 && gap > 0 {
      var f := FrameAt(p, r + gap);
      CarriedStep(|p|, r);
      CarriedStep(|p|, r + gap);
      assert |s.content| + 7 < |p|;
      assert R.Taken(s, f) == f.data[1..8];
    }
  }

  lemma SnGap(r: nat, gap: nat)
    ensures (r + gap) % 16 == r % 16 <==> gap % 16 == 0
  {
  }
}
