/** Lost frames: a transfer of which any frames are missing never passes for a message. */
module IsoTpLoss {
  import opened Words
  import opened IsoTpFormat
  import R = IsoTpReceiver
  import opened IsoTpTransfer

  function Fed(s: R.View, fs: seq<Frame>): (s1: R.View)
    requires R.Inv(s)
    ensures R.Inv(s1)
  {
    if |fs| == 0 then s
    else
      var s0 := Fed(s, fs[..|fs| - 1]);
      R.StepKeepsInv(s0, fs[|fs| - 1]);
      R.Step(s0, fs[|fs| - 1]).0
  }

  // The event on the j-th of the frames.
  function EventAt(s: R.View, fs: seq<Frame>, j: nat): Event
    requires R.Inv(s) && j < |fs|
  {
    R.Step(Fed(s, fs[..j]), fs[j]).1
  }

  lemma FedSnoc(s: R.View, fs: seq<Frame>, j: nat)
    requires R.Inv(s) && j < |fs|
    ensures Fed(s, fs[..j + 1]) == R.Step(Fed(s, fs[..j]), fs[j]).0
  {
    assert fs[..j + 1][..j] == fs[..j];
  }

  // Positions of a selection of frames, in order.
  predicate Selection(idx: seq<nat>, n: nat) {
    && (forall i, j | 0 <= i < j < |idx| :: idx[i] < idx[j])
    && (forall i | 0 <= i < |idx| :: idx[i] < n)
  }

  function Selected(p: seq<u8>, idx: seq<nat>): (fs: seq<Frame>)
    requires Sendable(p) && Selection(idx, FrameCount(|p|))
    ensures |fs| == |idx| && forall i | 0 <= i < |fs| :: fs[i] == FrameAt(p, idx[i])
  {
    seq(|idx|, i requires 0 <= i < |idx| => FrameAt(p, idx[i]))
  }

  // What a selection is fed to: an idle receiver, or one in any state if the transfer's first
  // frame, which resets it, is not lost.
  predicate Fresh(s: R.View, idx: seq<nat>) { s.phase == R.Idle || (idx != [] && idx[0] == 0) }

  // After j selected frames the receiver collects only if the first frame was among them, and
  // then it has at most seven bytes from each other one.
  ghost predicate Behind(s: R.View, p: seq<u8>, idx: seq<nat>, j: nat) {
    && R.Inv(s)
    && j <= |idx|
    && (s.phase == R.WaitCf ==>
          && idx != [] && idx[0] == 0
          && (j > 0 ==> |p| >= 8 && s.total == |p| && |s.content| <= 6 + 7 * (j - 1)))
  }

  lemma StaysBehind(s: R.View, p: seq<u8>, idx: seq<nat>, j: nat)
    requires Sendable(p) && Selection(idx, FrameCount(|p|)) && j < |idx| < FrameCount(|p|)
    requires Behind(s, p, idx, j)
    ensures Behind(R.Step(s, FrameAt(p, idx[j])).0, p, idx, j + 1)
    ensures R.Step(s, FrameAt(p, idx[j])).1 != EvMessage
  {
    var f := FrameAt(p, idx[j]);
    FrameShape(p, idx[j]);
    R.StepKeepsInv(s, f);
    CarriedAll(|p|);
    if j > 0 {
      assert idx[0] < idx[j];
    }
    if s.phase == R.WaitCf && j > 0 {
      assert |R.Taken(s, f)| <= 7;
      assert 6 + 7 * j < |p|;
    }
  }

  lemma {:induction false} BehindAt(s: R.View, p: seq<u8>, idx: seq<nat>, j: nat)
    requires R.Inv(s) && Fresh(s, idx)
    requires Sendable(p) && Selection(idx, FrameCount(|p|)) && |idx| < FrameCount(|p|)
    requires j <= |idx|
    ensures Behind(Fed(s, Selected(p, idx)[..j]), p, idx, j)
  {
    if j > 0 {
      BehindAt(s, p, idx, j - 1);
      StaysBehind(Fed(s, Selected(p, idx)[..j - 1]), p, idx, j - 1);
      FedSnoc(s, Selected(p, idx), j - 1);
    }
  }

  /** Whichever frames of a transfer are lost, even sixteen in a row that leave the sequence
      numbers intact, the receiver never reports a message for the rest: not if it was idle, and in
      no other state unless the first frame is among the lost. */
  lemma NoMessageFromAPart(s: R.View, p: seq<u8>, idx: seq<nat>, j: nat)
    requires R.Inv(s) && Fresh(s, idx)
    requires Sendable(p) && Selection(idx, FrameCount(|p|)) && |idx| < FrameCount(|p|)
    requires j < |idx|
    ensures EventAt(s, Selected(p, idx), j) != EvMessage
  {
    BehindAt(s, p, idx, j);
    StaysBehind(Fed(s, Selected(p, idx)[..j]), p, idx, j);
  }

  ghost predicate InPlace(s: R.View, p: seq<u8>, r: nat) { HasReceived(s, p, r) && |p| <= s.cfg.limit }

  // The later frames of a segmentation, fed to a receiver that has those before them.
  lemma {:induction false} InOrder(s: R.View, fs: seq<Frame>, p: seq<u8>, from: nat, to: nat, j: nat, r: nat)
    requires InPlace(s, p, from) && Carries(fs, p, from, to) && r == from + j <= to
    ensures InPlace(Fed(s, fs[..j]), p, r) && Fed(s, fs[..j]).cfg == s.cfg
    decreases j
  {
    if j == 0 {
      FedNone(s, fs);
    } else {
      InOrder(s, fs, p, from, to, j - 1, r - 1);
      FedCarried(s, fs, p, from, to, j - 1, r - 1);
    }
  }

  lemma CarriedAt(fs: seq<Frame>, p: seq<u8>, from: nat, to: nat, j: nat, r: nat)
    requires Sendable(p) && Carries(fs, p, from, to) && r == from + j < to
    ensures fs[j] == FrameAt(p, r)
  {
  }

  lemma FedNone(s: R.View, fs: seq<Frame>)
    requires R.Inv(s)
    ensures Fed(s, fs[..0]) == s
  {
  }

  lemma FedInOrder(s: R.View, fs: seq<Frame>, p: seq<u8>, j: nat, r: nat)
    requires R.Inv(s) && j < |fs|
    requires InPlace(Fed(s, fs[..j]), p, r) && r < FrameCount(|p|) && fs[j] == FrameAt(p, r)
    ensures InPlace(Fed(s, fs[..j + 1]), p, r + 1)
    ensures Fed(s, fs[..j + 1]).cfg == Fed(s, fs[..j]).cfg
  {
    NextInOrder(Fed(s, fs[..j]), fs[j], p, r);
    FedSnoc(s, fs, j);
  }

  lemma FedCarried(s: R.View, fs: seq<Frame>, p: seq<u8>, from: nat, to: nat, j: nat, r: nat)
    requires R.Inv(s) && Sendable(p) && Carries(fs, p, from, to) && r == from + j < to
    requires InPlace(Fed(s, fs[..j]), p, r)
    ensures InPlace(Fed(s, fs[..j + 1]), p, r + 1)
    ensures Fed(s, fs[..j + 1]).cfg == Fed(s, fs[..j]).cfg
  {
    CarriedAt(fs, p, from, to, j, r);
    FedInOrder(s, fs, p, j, r);
  }

  lemma NextInOrder(s: R.View, f: Frame, p: seq<u8>, r: nat)
    requires InPlace(s, p, r) && r < FrameCount(|p|) && f == FrameAt(p, r)
    ensures InPlace(R.Step(s, f).0, p, r + 1) && R.Step(s, f).0.cfg == s.cfg
    ensures R.Step(s, f).1 == EvMessage <==> r + 1 == FrameCount(|p|)
    ensures R.Step(s, f).1 in {EvMessage, EvSendFc, EvNone}
  {
    FrameAdvances(s, p, r);
  }

  lemma InOrderEvents(s: R.View, fs: seq<Frame>, p: seq<u8>, from: nat, to: nat, j: nat)
    requires InPlace(s, p, from) && Carries(fs, p, from, to) && j < |fs|
    ensures EventAt(s, fs, j) == EvMessage <==> from + j + 1 == FrameCount(|p|)
    ensures EventAt(s, fs, j) in {EvMessage, EvSendFc, EvNone}
  {
    InOrder(s, fs, p, from, to, j, from + j);
    CarriedAt(fs, p, from, to, j, from + j);
    NextInOrder(Fed(s, fs[..j]), fs[j], p, from + j);
  }

  lemma InOrderAll(s: R.View, fs: seq<Frame>, p: seq<u8>, from: nat, to: nat)
    requires InPlace(s, p, from) && Carries(fs, p, from, to)
    ensures InPlace(Fed(s, fs), p, to) && Fed(s, fs).cfg == s.cfg
  {
    InOrder(s, fs, p, from, to, |fs|, to);
    assert fs[..|fs|] == fs;
  }

  /** The whole segmentation, in order, to a receiver in any state, is reported as a message at its
      last frame and not before, with no error on the way. */
  lemma WholeIsOneMessage(s: R.View, p: seq<u8>, j: nat)
    requires R.Inv(s) && Sendable(p) && |p| <= s.cfg.limit
    requires j < FrameCount(|p|)
    ensures EventAt(s, Segmentation(p), j) == EvMessage <==> j + 1 == FrameCount(|p|)
    ensures EventAt(s, Segmentation(p), j) in {EvMessage, EvSendFc, EvNone}
    ensures Fed(s, Segmentation(p)).content == p
  {
    InOrderEvents(s, Segmentation(p), p, 0, FrameCount(|p|), j);
    InOrderAll(s, Segmentation(p), p, 0, FrameCount(|p|));
  }
}
