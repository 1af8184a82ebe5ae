/** What the receiver reports, told from the frames it was fed: any frames, any lengths. */
module IsoTpHistory {
  import opened Arithmetic
  import opened Words
  import opened IsoTpFormat
  import R = IsoTpReceiver

  // The state after a whole history of frames.
  function Run(cfg: R.Config, h: seq<Frame>): (s: R.View)
    ensures R.Inv(s)
    ensures s.cfg == R.Config(if cfg.limit > 4095 then 4095 else cfg.limit, cfg.blockSize, cfg.stMin)
  {
    if |h| == 0 then R.Start(cfg)
    else
      var s0 := Run(cfg, h[..|h| - 1]);
      R.StepKeepsInv(s0, h[|h| - 1]);
      R.Step(s0, h[|h| - 1]).0
  }

  // The event on frame f after history h.
  function EventOn(cfg: R.Config, h: seq<Frame>, f: Frame): Event { R.Step(Run(cfg, h), f).1 }

  // ------------------------------------------------------------- frames by kind

  // Neither starts, continues nor ends a transfer.
  predicate Ignored(f: Frame) { !GoodDlc(f) || Pci(f) >= PCI_FC }

  predicate IsCf(f: Frame) { GoodDlc(f) && Pci(f) == PCI_CF }

  predicate IsFf(f: Frame) { GoodDlc(f) && Pci(f) == PCI_FF }

  predicate IsSf(f: Frame) { GoodDlc(f) && Pci(f) == PCI_SF }

  predicate GoodSf(f: Frame) { IsSf(f) && 1 <= Low(f) <= 7 && Low(f) < f.dlc }

  predicate GoodFf(f: Frame) { IsFf(f) && f.dlc == CAN_DLC && 8 <= Declared(f) }

  predicate Opens(f: Frame, limit: nat) { GoodFf(f) && Declared(f) <= limit }

  // ------------------------------------------------------------- the open transfer of a history

  type CfFrame = f: Frame | IsCf(f) witness RawFrame([PCI_CF * 16], 1)

  function ConsecutiveFrames(h: seq<Frame>): seq<CfFrame> {
    if |h| == 0 then []
    else
      var cs := ConsecutiveFrames(h[..|h| - 1]);
      if IsCf(h[|h| - 1]) then cs + [h[|h| - 1]] else cs
  }

  function Slice(f: Frame): seq<u8>
    requires GoodDlc(f)
  {
    f.data[1..f.dlc]
  }

  function Slices(cs: seq<CfFrame>): seq<u8> {
    if |cs| == 0 then [] else Slices(cs[..|cs| - 1]) + Slice(cs[|cs| - 1])
  }

  predicate Numbered(cs: seq<CfFrame>) { forall i | 0 <= i < |cs| :: Low(cs[i]) == (i + 1) % 16 }

  // The consecutive frames after frame k.
  function Since(h: seq<Frame>, k: nat): seq<CfFrame>
    requires k < |h|
  {
    ConsecutiveFrames(h[k + 1..])
  }

  predicate Undisturbed(h: seq<Frame>, k: nat) {
    forall j | k < j < |h| :: Ignored(h[j]) || IsCf(h[j])
  }

  // The history ends inside the transfer that its frame k opened: since then there were only
  // consecutive frames, numbered 1, 2, .. modulo 16, and frames that do not matter, and the
  // declared length is not reached.
  predicate Open(h: seq<Frame>, k: nat, limit: nat) {
    && k < |h|
    && Opens(h[k], limit)
    && Undisturbed(h, k)
    && Numbered(Since(h, k))
    && 6 + |Slices(Since(h, k))| < Declared(h[k])
  }

  // Frame f is the next one of that transfer, and leaves it open or completes it.
  predicate InSequence(h: seq<Frame>, k: nat, f: Frame)
    requires k < |h|
  {
    IsCf(f) && Low(f) == (|Since(h, k)| + 1) % 16
  }

  predicate Continues(h: seq<Frame>, k: nat, f: Frame)
    requires k < |h| && |h[k].data| >= 2
  {
    InSequence(h, k, f) && 6 + |Slices(Since(h, k))| + |Slice(f)| < Declared(h[k])
  }

  predicate Completes(h: seq<Frame>, k: nat, f: Frame)
    requires k < |h| && |h[k].data| >= 2
  {
    InSequence(h, k, f) && 6 + |Slices(Since(h, k))| + |Slice(f)| >= Declared(h[k])
  }

  lemma SinceSnoc(h: seq<Frame>, k: nat, f: Frame)
    requires k < |h|
    ensures Since(h + [f], k) == if IsCf(f) then Since(h, k) + [f] else Since(h, k)
    ensures IsCf(f) ==> Slices(Since(h + [f], k)) == Slices(Since(h, k)) + Slice(f)
  {
    var t := (h + [f])[k + 1..];
    assert t[..|t| - 1] == h[k + 1..];
    if IsCf(f) {
      assert (Since(h, k) + [f])[..|Since(h, k)|] == Since(h, k);
    }
  }

  lemma UndisturbedSnoc(h: seq<Frame>, k: nat, f: Frame)
    requires k < |h|
    ensures Undisturbed(h + [f], k) <==> Undisturbed(h, k) && (Ignored(f) || IsCf(f))
  {
    var g := h + [f];
    assert forall j | k < j < |h| :: g[j] == h[j];
    assert g[|h|] == f;
  }

  lemma NumberedSnoc(cs: seq<CfFrame>, f: CfFrame)
    ensures Numbered(cs + [f]) <==> Numbered(cs) && Low(f) == (|cs| + 1) % 16
  {
    assert forall i | 0 <= i < |cs| :: (cs + [f])[i] == cs[i];
    assert (cs + [f])[|cs|] == f;
  }

  lemma OpenSnoc(h: seq<Frame>, k: nat, f: Frame, limit: nat)
    ensures Open(h + [f], k, limit) <==>
              || (k == |h| && Opens(f, limit))
              || (k < |h| && Open(h, k, limit) && (Ignored(f) || Continues(h, k, f)))
  {
    var g := h + [f];
    if k < |h| {
      SinceSnoc(h, k, f);
      UndisturbedSnoc(h, k, f);
      if IsCf(f) {
        NumberedSnoc(Since(h, k), f);
      }
    } else if k == |h| {
      assert g[k + 1..] == [];
    }
  }

  // ------------------------------------------------------------- the state told by the history

  // How many consecutive frames the receiver counts towards the block after n of them, and
  // whether frame n + 1 then fills it.
  function InBlock(cfg: R.Config, n: nat): u16
    decreases n, 0
  {
    if n == 0 || BlockFull(cfg, n - 1) then 0 else Wrap16(InBlock(cfg, n - 1) + 1)
  }

  predicate BlockFull(cfg: R.Config, n: nat)
    decreases n, 1
  {
    cfg.blockSize != 0 && InBlock(cfg, n) + 1 >= cfg.blockSize
  }

  // The bytes the transfer of frame k has brought: those of its first frame and of the
  // consecutive frames since.
  function Brought(h: seq<Frame>, k: nat): seq<u8>
    requires k < |h| && |h[k].data| >= 8
  {
    h[k].data[2..8] + Slices(Since(h, k))
  }

  lemma BroughtSnoc(h: seq<Frame>, k: nat, f: Frame)
    requires k < |h| && |h[k].data| >= 8 && IsCf(f)
    ensures Brought(h + [f], k) == Brought(h, k) + Slice(f)
  {
    SinceSnoc(h, k, f);
  }

  ghost predicate Holds(s: R.View, h: seq<Frame>, k: nat)
    requires k < |h| && |h[k].data| >= 8
  {
    && s.phase == R.WaitCf
    && s.total == Declared(h[k])
    && s.content == Brought(h, k)
    && s.nextSn == (|Since(h, k)| + 1) % 16
    && s.cfSinceFc == InBlock(s.cfg, |Since(h, k)|)
  }

  lemma BlockStep(n: nat, b: nat)
    requires b > 0
    ensures (n + 1) % b == if n % b + 1 == b then 0 else n % b + 1
  {
    var q, r := n / b, n % b;
    assert n == b * q + r;
    if r + 1 == b {
      assert n + 1 == b * (q + 1) by { Distribute(b, q); }
      QuotientIs(n + 1, q + 1, 0, b);
    } else {
      QuotientIs(n + 1, q, r + 1, b);
    }
  }

  lemma Distribute(b: nat, q: nat)
    ensures b * (q + 1) == b * q + b
  {
  }

  lemma QuotientIs(n: nat, q: nat, r: nat, b: nat)
    requires b > 0 && r < b && n == b * q + r
    ensures n % b == r
  {
    var p := n / b;
    assert n == b * p + n % b;
    if p > q {
      TimesMonotone(q + 1, p, b);
      Distribute(b, q);
    } else if p < q {
      TimesMonotone(p + 1, q, b);
      Distribute(b, p);
    }
  }

  // The count is the number of consecutive frames modulo the block size.
  lemma {:induction false} InBlockIsRemainder(cfg: R.Config, n: nat)
    requires cfg.blockSize != 0
    ensures InBlock(cfg, n) == n % cfg.blockSize
  {
    var b := cfg.blockSize;
    if n == 0 {
      SmallRemainder(0, b);
    } else {
      InBlockIsRemainder(cfg, n - 1);
      BlockStep(n - 1, b);
    }
  }

  lemma SmallRemainder(n: nat, b: nat)
    requires n < b
    ensures n % b == n
  {
  }

  lemma BlockFullIff(cfg: R.Config, n: nat)
    ensures BlockFull(cfg, n) <==> cfg.blockSize != 0 && (n + 1) % cfg.blockSize == 0
  {
    if cfg.blockSize != 0 {
      InBlockIsRemainder(cfg, n);
      BlockStep(n, cfg.blockSize);
    }
  }

  lemma FrameCompletes(s: R.View, h: seq<Frame>, k: nat, f: Frame)
    requires R.Inv(s)
    requires Open(h, k, s.cfg.limit) && Holds(s, h, k)
    requires Completes(h, k, f)
    ensures var (s1, ev) := R.Step(s, f);
            && ev == EvMessage && s1.phase == R.Idle
            && |s1.content| == s.total && s1.content <= s.content + Slice(f)
  {
    assert |s.content| == 6 + |Slices(Since(h, k))|;
  }

  // A consecutive frame in sequence that does not complete the message, after n others.
  lemma ContinuedState(s: R.View, f: Frame, n: nat)
    requires R.Inv(s) && s.phase == R.WaitCf && s.cfSinceFc == InBlock(s.cfg, n)
    requires IsCf(f) && Low(f) == s.nextSn && |s.content| + |Slice(f)| < s.total
    ensures var (s1, ev) := R.Step(s, f);
            && ev == (if BlockFull(s.cfg, n) then EvSendFc else EvNone)
            && s1.phase == R.WaitCf && s1.total == s.total && s1.cfg == s.cfg
            && s1.content == s.content + Slice(f) && s1.nextSn == (s.nextSn + 1) % 16
            && s1.cfSinceFc == InBlock(s.cfg, n + 1)
  {
    assert R.Taken(s, f) == Slice(f);
  }

  lemma FrameContinues(s: R.View, h: seq<Frame>, k: nat, f: Frame)
    requires R.Inv(s)
    requires Open(h, k, s.cfg.limit) && Holds(s, h, k)
    requires Continues(h, k, f)
    ensures var (s1, ev) := R.Step(s, f);
            && ev == (if BlockFull(s.cfg, |Since(h, k)|) then EvSendFc else EvNone)
            && Holds(s1, h + [f], k)
  {
    var n, g := |Since(h, k)|, h + [f];
    ContinuedState(s, f, n);
    SinceSnoc(h, k, f);
    SnStep(n + 1);
    BroughtSnoc(h, k, f);
    assert g[k] == h[k];
  }

  // The receiver is collecting exactly when the history has an open transfer, and then
  // holds precisely that transfer's bytes.
  ghost predicate Tells(s: R.View, h: seq<Frame>) {
    && (s.phase == R.WaitCf <==> exists k :: Open(h, k, s.cfg.limit))
    && (forall k | Open(h, k, s.cfg.limit) :: Holds(s, h, k))
  }

  lemma TellsOpening(s: R.View, h: seq<Frame>, f: Frame)
    requires R.Inv(s) && Tells(s, h) && Opens(f, s.cfg.limit)
    ensures Tells(R.Step(s, f).0, h + [f])
  {
    var g, limit, s1 := h + [f], s.cfg.limit, R.Step(s, f).0;
    assert g[|h| + 1..] == [] && g[|h|] == f;
    OpenSnoc(h, |h|, f, limit);
    assert Open(g, |h|, limit);
    assert Holds(s1, g, |h|);
    forall k | Open(g, k, limit)
      ensures k == |h|
    {
      OpenIsUnique(g, k, |h|, limit);
    }
  }

  lemma HoldsIgnored(s: R.View, h: seq<Frame>, k: nat, f: Frame)
    requires R.Inv(s) && Open(h, k, s.cfg.limit) && Holds(s, h, k) && Ignored(f)
    ensures Holds(R.Step(s, f).0, h + [f], k)
  {
    SinceSnoc(h, k, f);
    assert (h + [f])[k] == h[k];
  }

  lemma TellsIgnored(s: R.View, h: seq<Frame>, f: Frame)
    requires R.Inv(s) && Tells(s, h) && Ignored(f)
    ensures Tells(R.Step(s, f).0, h + [f])
  {
    var g, limit, s1 := h + [f], s.cfg.limit, R.Step(s, f).0;
    forall k: nat
      ensures Open(g, k, limit) <==> Open(h, k, limit)
      ensures Open(g, k, limit) ==> Holds(s1, g, k)
    {
      OpenSnoc(h, k, f, limit);
      if Open(h, k, limit) {
        HoldsIgnored(s, h, k, f);
      }
    }
  }

  lemma TellsEnding(s: R.View, h: seq<Frame>, f: Frame)
    requires R.Inv(s) && Tells(s, h) && !Ignored(f) && !IsCf(f) && !Opens(f, s.cfg.limit)
    ensures Tells(R.Step(s, f).0, h + [f])
  {
    forall k: nat
      ensures !Open(h + [f], k, s.cfg.limit)
    {
      OpenSnoc(h, k, f, s.cfg.limit);
    }
  }

  lemma TellsConsecutive(s: R.View, h: seq<Frame>, f: Frame)
    requires R.Inv(s) && Tells(s, h) && IsCf(f)
    ensures Tells(R.Step(s, f).0, h + [f])
  {
    var g, limit, s1 := h + [f], s.cfg.limit, R.Step(s, f).0;
    forall k: nat
      ensures Open(g, k, limit) <==> Open(h, k, limit) && Continues(h, k, f)
    {
      OpenSnoc(h, k, f, limit);
    }
    if s.phase == R.WaitCf {
      var k :| Open(h, k, limit);
      forall j | Open(h, j, limit)
        ensures j == k
      {
        OpenIsUnique(h, j, k, limit);
      }
      assert Holds(s, h, k);
      if Continues(h, k, f) {
        FrameContinues(s, h, k, f);
        assert Open(g, k, limit);
      } else if Completes(h, k, f) {
        FrameCompletes(s, h, k, f);
      }
    }
  }

  lemma {:induction false} CollectingTold(cfg: R.Config, h: seq<Frame>)
    ensures Tells(Run(cfg, h), h)
  {
    if |h| > 0 {
      var g, f := h[..|h| - 1], h[|h| - 1];
      assert h == g + [f];
      CollectingTold(cfg, g);
      var s := Run(cfg, g);
      if Ignored(f) {
        TellsIgnored(s, g, f);
      } else if IsCf(f) {
        TellsConsecutive(s, g, f);
      } else if Opens(f, s.cfg.limit) {
        TellsOpening(s, g, f);
      } else {
        TellsEnding(s, g, f);
      }
    }
  }

  lemma OpenIsUnique(h: seq<Frame>, j: nat, k: nat, limit: nat)
    requires Open(h, j, limit) && Open(h, k, limit)
    ensures j == k
  {
  }

  // ------------------------------------------------------------- kinds of frames in numbers

  // The kinds in the numbers of the first bytes: 0n, 1n nn, 2n, and everything from 30 on.
  lemma KindsInNumbers(f: Frame)
    ensures IsSf(f) <==> 1 <= f.dlc <= 8 && f.data[0] < 0x10
    ensures IsFf(f) <==> 1 <= f.dlc <= 8 && 0x10 <= f.data[0] < 0x20
    ensures IsCf(f) <==> 1 <= f.dlc <= 8 && 0x20 <= f.data[0] < 0x30
    ensures Ignored(f) <==> f.dlc < 1 || f.dlc > 8 || f.data[0] >= 0x30
    ensures GoodSf(f) <==> 1 <= f.dlc <= 8 && 1 <= f.data[0] <= 7 && f.data[0] < f.dlc
    ensures IsSf(f) ==> Low(f) == f.data[0]
    ensures IsCf(f) ==> Low(f) == f.data[0] - 0x20
    ensures GoodFf(f) <==>
            f.dlc == 8 && 0x10 <= f.data[0] < 0x20 && (f.data[0] as int - 0x10) * 256 + f.data[1] as int >= 8
    ensures GoodFf(f) ==> Declared(f) == (f.data[0] as int - 0x10) * 256 + f.data[1] as int <= 4095
  {
  }

  // ------------------------------------------------------------- the main results

  // No first frame can declare more than 4095 bytes, so the limit the caller asks for decides.
  lemma AskedLimit(h: seq<Frame>, k: nat, limit: u16)
    ensures Open(h, k, limit) <==> Open(h, k, if limit > 4095 then 4095 else limit)
  {
    if k < |h| {
      KindsInNumbers(h[k]);
    }
  }

  // The receiver is collecting exactly when the history ends in an open transfer, by the limit that
  // the caller asked for, and then it holds precisely that transfer's bytes.
  lemma CollectingIffOpen(cfg: R.Config, h: seq<Frame>)
    ensures Run(cfg, h).phase == R.WaitCf <==> exists k :: Open(h, k, cfg.limit)
    ensures forall k | Open(h, k, cfg.limit) :: Holds(Run(cfg, h), h, k)
  {
    CollectingTold(cfg, h);
    forall k: nat
      ensures Open(h, k, cfg.limit) <==> Open(h, k, Run(cfg, h).cfg.limit)
    {
      AskedLimit(h, k, cfg.limit);
    }
  }

  // The event on a consecutive frame, from the history and what the caller asked for: flow control
  // is due after every blockSize-th consecutive frame of a transfer.
  lemma EventOnConsecutive(cfg: R.Config, h: seq<Frame>, f: Frame)
    requires IsCf(f)
    ensures var limit, ev := cfg.limit, EventOn(cfg, h, f);
            && (ev == EvMessage <==> exists k :: Open(h, k, limit) && Completes(h, k, f))
            && (ev == EvSendFc <==>
                  exists k :: Open(h, k, limit) && Continues(h, k, f) && FillsBlock(h, k, cfg.blockSize))
            && (ev == EvNone <==>
                  exists k :: Open(h, k, limit) && Continues(h, k, f) && !FillsBlock(h, k, cfg.blockSize))
            && (ev == EvErrSequence <==> exists k :: Open(h, k, limit) && !InSequence(h, k, f))
            && (ev == EvErrUnexpected <==> forall k :: !Open(h, k, limit))
  {
    CollectingIffOpen(cfg, h);
    if Run(cfg, h).phase == R.WaitCf {
      var k :| Open(h, k, cfg.limit);
      forall j | Open(h, j, cfg.limit)
        ensures j == k
      {
        OpenIsUnique(h, j, k, cfg.limit);
      }
      EventInTransfer(cfg, h, k, f);
    }
  }

  // The next consecutive frame after frame k is the last of a block.
  predicate FillsBlock(h: seq<Frame>, k: nat, blockSize: u8)
    requires k < |h|
  {
    blockSize != 0 && (|Since(h, k)| + 1) % blockSize == 0
  }

  lemma EventInTransfer(cfg: R.Config, h: seq<Frame>, k: nat, f: Frame)
    requires IsCf(f) && Open(h, k, cfg.limit)
    ensures EventOn(cfg, h, f) ==
            if !InSequence(h, k, f) then EvErrSequence
            else if Completes(h, k, f) then EvMessage
            else if FillsBlock(h, k, cfg.blockSize) then EvSendFc
            else EvNone
  {
    CollectingIffOpen(cfg, h);
    AskedLimit(h, k, cfg.limit);
    if Continues(h, k, f) {
      FrameContinues(Run(cfg, h), h, k, f);
      BlockFullIff(Run(cfg, h).cfg, |Since(h, k)|);
    } else if Completes(h, k, f) {
      FrameCompletes(Run(cfg, h), h, k, f);
    }
  }

  // The event on any other frame does not depend on the history.
  lemma EventOnOther(cfg: R.Config, h: seq<Frame>, f: Frame)
    requires !IsCf(f)
    ensures var limit, ev := cfg.limit, EventOn(cfg, h, f);
            && (ev == EvMessage <==> GoodSf(f) && Low(f) <= limit)
            && (ev == EvSendFc <==> Opens(f, limit))
            && (ev == EvErrOverflow <==> (GoodSf(f) && Low(f) > limit) || (GoodFf(f) && Declared(f) > limit))
            && (ev == EvErrLength <==>
                  !GoodDlc(f) || Pci(f) > PCI_FC || (IsSf(f) && !GoodSf(f)) || (IsFf(f) && !GoodFf(f)))
            && ev != EvErrSequence && ev != EvErrUnexpected
  {
    var s := Run(cfg, h);
  }

  lemma RunSnoc(cfg: R.Config, h: seq<Frame>, f: Frame)
    ensures Run(cfg, h + [f]) == R.Step(Run(cfg, h), f).0
  {
    assert (h + [f])[..|h|] == h;
  }

  // A completed message is the bytes of its transfer, cut to the declared length.
  lemma MessageIsConcatenation(cfg: R.Config, h: seq<Frame>, k: nat, f: Frame)
    requires Open(h, k, cfg.limit) && Completes(h, k, f)
    ensures var s := Run(cfg, h + [f]);
            && s.phase == R.Idle
            && |s.content| == Declared(h[k])
            && s.content <= Brought(h + [f], k)
  {
    CollectingIffOpen(cfg, h);
    AskedLimit(h, k, cfg.limit);
    FrameCompletes(Run(cfg, h), h, k, f);
    BroughtSnoc(h, k, f);
    RunSnoc(cfg, h, f);
  }

  // A single frame's message is the bytes it announces, whatever came before.
  lemma SingleMessage(cfg: R.Config, h: seq<Frame>, f: Frame)
    requires GoodSf(f) && Low(f) <= cfg.limit
    ensures var s := Run(cfg, h + [f]);
            s.phase == R.Idle && s.total == Low(f) && s.content == f.data[1..1 + Low(f)]
  {
    RunSnoc(cfg, h, f);
  }

  // No message is longer than what the caller has room for.
  lemma MessageFits(cfg: R.Config, h: seq<Frame>, f: Frame)
    requires EventOn(cfg, h, f) == EvMessage
    ensures 1 <= |Run(cfg, h + [f]).content| <= cfg.limit && |Run(cfg, h + [f]).content| <= 4095
  {
    RunSnoc(cfg, h, f);
    if IsCf(f) {
      EventOnConsecutive(cfg, h, f);
      var k :| Open(h, k, cfg.limit) && Completes(h, k, f);
      MessageIsConcatenation(cfg, h, k, f);
    } else {
      EventOnOther(cfg, h, f);
      SingleMessage(cfg, h, f);
    }
  }

  // The frame to send when flow control is asked for clears the peer to send, with the block size and
  // separation time the caller asked for; the one built for a first frame beyond the limit says
  // overflow; and no other frame touches it.
  lemma FlowControlBuilt(cfg: R.Config, h: seq<Frame>, f: Frame)
    ensures var s, ev := Run(cfg, h + [f]), EventOn(cfg, h, f);
            s.fc == if ev == EvSendFc then [0x30, cfg.blockSize, cfg.stMin, 0xCC, 0xCC, 0xCC, 0xCC, 0xCC]
                    else if GoodFf(f) && Declared(f) > cfg.limit then
                      [0x32, cfg.blockSize, cfg.stMin, 0xCC, 0xCC, 0xCC, 0xCC, 0xCC]
                    else Run(cfg, h).fc
  {
    RunSnoc(cfg, h, f);
    FlowControlBytes(cfg.blockSize, cfg.stMin, Run(cfg, h).cfg);
    KindsInNumbers(f);
  }

  lemma FlowControlBytes(blockSize: u8, stMin: u8, cfg: R.Config)
    requires cfg.blockSize == blockSize && cfg.stMin == stMin
    ensures R.FlowControlFrame(cfg, FS_CTS) == [0x30, blockSize, stMin, 0xCC, 0xCC, 0xCC, 0xCC, 0xCC]
    ensures R.FlowControlFrame(cfg, FS_OVFLW) == [0x32, blockSize, stMin, 0xCC, 0xCC, 0xCC, 0xCC, 0xCC]
  {
  }

  // An error ends an open transfer and forgets its bytes when it is a wrong number or a single or
  // first frame that is refused; any other error changes nothing but its counter.
  lemma ErrorsClear(cfg: R.Config, h: seq<Frame>, f: Frame)
    requires EventOn(cfg, h, f) in {EvErrSequence, EvErrOverflow, EvErrLength, EvErrUnexpected}
    ensures var s, s1 := Run(cfg, h), Run(cfg, h + [f]);
            if EventOn(cfg, h, f) == EvErrUnexpected || Ignored(f) then s1 == s.(stats := s1.stats)
            else s1.phase == R.Idle && s1.content == [] && s1.total == 0
  {
    RunSnoc(cfg, h, f);
  }

  // How often an event was reported in a history.
  function Reported(cfg: R.Config, h: seq<Frame>, ev: Event): nat {
    if |h| == 0 then 0
    else
      var g := h[..|h| - 1];
      Reported(cfg, g, ev) + if EventOn(cfg, g, h[|h| - 1]) == ev then 1 else 0
  }

  function Bumped(st: R.Stats, ev: Event): R.Stats {
    match ev
    case EvMessage => st.(messagesOk := Wrap32(st.messagesOk + 1))
    case EvErrSequence => st.(errSequence := Wrap32(st.errSequence + 1))
    case EvErrOverflow => st.(errOverflow := Wrap32(st.errOverflow + 1))
    case EvErrLength => st.(errLength := Wrap32(st.errLength + 1))
    case EvErrUnexpected => st.(errUnexpected := Wrap32(st.errUnexpected + 1))
    case _ => st
  }

  lemma StepBumps(s: R.View, f: Frame)
    requires R.Inv(s)
    ensures R.Step(s, f).0.stats == Bumped(s.stats, R.Step(s, f).1)
  {
  }

  function Tally(cfg: R.Config, h: seq<Frame>): R.Stats {
    R.Stats(Wrap32(Reported(cfg, h, EvMessage)),
            Wrap32(Reported(cfg, h, EvErrSequence)),
            Wrap32(Reported(cfg, h, EvErrOverflow)),
            Wrap32(Reported(cfg, h, EvErrLength)),
            Wrap32(Reported(cfg, h, EvErrUnexpected)))
  }

  function BumpIf(n: u32, hit: bool): u32 { if hit then Wrap32(n + 1) else n }

  lemma BumpedIs(st: R.Stats, ev: Event)
    ensures Bumped(st, ev) ==
            R.Stats(BumpIf(st.messagesOk, ev == EvMessage), BumpIf(st.errSequence, ev == EvErrSequence),
                    BumpIf(st.errOverflow, ev == EvErrOverflow), BumpIf(st.errLength, ev == EvErrLength),
                    BumpIf(st.errUnexpected, ev == EvErrUnexpected))
  {
  }

  lemma ReportedBumps(cfg: R.Config, h: seq<Frame>, front: seq<Frame>, ev: Event, kind: Event)
    requires |h| > 0 && front == h[..|h| - 1] && ev == EventOn(cfg, front, h[|h| - 1])
    ensures Wrap32(Reported(cfg, h, kind)) == BumpIf(Wrap32(Reported(cfg, front, kind)), ev == kind)
  {
    WrapSum(Reported(cfg, front, kind), 1);
  }

  lemma TallyBumps(cfg: R.Config, h: seq<Frame>, front: seq<Frame>, ev: Event)
    requires |h| > 0 && front == h[..|h| - 1] && ev == EventOn(cfg, front, h[|h| - 1])
    ensures Tally(cfg, h) == Bumped(Tally(cfg, front), ev)
  {
    BumpedIs(Tally(cfg, front), ev);
    ReportedBumps(cfg, h, front, ev, EvMessage);
    ReportedBumps(cfg, h, front, ev, EvErrSequence);
    ReportedBumps(cfg, h, front, ev, EvErrOverflow);
    ReportedBumps(cfg, h, front, ev, EvErrLength);
    ReportedBumps(cfg, h, front, ev, EvErrUnexpected);
  }

  // The diagnostic counters count those events, modulo their width.
  lemma {:induction false} StatsCountEvents(cfg: R.Config, h: seq<Frame>)
    ensures Run(cfg, h).stats == Tally(cfg, h)
  {
    if |h| > 0 {
      var g, f := h[..|h| - 1], h[|h| - 1];
      StatsCountEvents(cfg, g);
      StepBumps(Run(cfg, g), f);
      TallyBumps(cfg, h, g, EventOn(cfg, g, f));
    }
  }
}
