/** Transfers that lose frames, one after another into one receiver: when what it reports is what
    was sent, and what it reports otherwise. */
module IsoTpLossySequence {
  import opened Words
  import opened IsoTpFormat
  import R = IsoTpReceiver
  import opened IsoTpTransfer
  import opened IsoTpLoss

  // The messages reported while the frames are fed.
  function Reports(s: R.View, fs: seq<Frame>): seq<seq<u8>>
    requires R.Inv(s)
  {
    if |fs| == 0 then []
    else
      Reports(s, fs[..|fs| - 1])
      + if EventAt(s, fs, |fs| - 1) == EvMessage then [Fed(s, fs).content] else []
  }

  lemma {:induction false} FedJoined(s: R.View, fs: seq<Frame>, gs: seq<Frame>)
    requires R.Inv(s)
    ensures Fed(s, fs + gs) == Fed(Fed(s, fs), gs)
    ensures Reports(s, fs + gs) == Reports(s, fs) + Reports(Fed(s, fs), gs)
    decreases |gs|
  {
    if gs == [] {
      assert fs + gs == fs;
    } else {
      var n := |gs| - 1;
      FedJoined(s, fs, gs[..n]);
      WithoutLast(fs, gs);
    }
  }

  lemma WithoutLast(fs: seq<Frame>, gs: seq<Frame>)
    requires gs != []
    ensures (fs + gs)[..|fs + gs| - 1] == fs + gs[..|gs| - 1]
    ensures (fs + gs)[|fs + gs| - 1] == gs[|gs| - 1]
  {
  }

  lemma ReportsSnoc(s: R.View, fs: seq<Frame>, j: nat)
    requires R.Inv(s) && j < |fs|
    ensures Reports(s, fs[..j + 1]) ==
            Reports(s, fs[..j]) + if EventAt(s, fs, j) == EvMessage then [Fed(s, fs[..j + 1]).content] else []
  {
    var first := fs[..j + 1];
    assert |first| - 1 == j;
    assert first[..j] == fs[..j];
    assert EventAt(s, first, j) == EventAt(s, fs, j);
  }

  lemma {:induction false} SilentFrames(s: R.View, fs: seq<Frame>, n: nat)
    requires R.Inv(s) && n <= |fs|
    requires forall j | 0 <= j < n :: EventAt(s, fs, j) != EvMessage
    ensures Reports(s, fs[..n]) == []
  {
    if n > 0 {
      SilentFrames(s, fs, n - 1);
      ReportsSnoc(s, fs, n - 1);
    }
  }

  lemma LastFrameReports(s: R.View, fs: seq<Frame>)
    requires R.Inv(s) && fs != []
    requires forall j | 0 <= j < |fs| :: EventAt(s, fs, j) == EvMessage <==> j == |fs| - 1
    ensures Reports(s, fs) == [Fed(s, fs).content]
  {
    SilentFrames(s, fs, |fs| - 1);
    ReportsSnoc(s, fs, |fs| - 1);
    assert fs[..|fs|] == fs;
  }

  // ------------------------------------------------------------- one transfer with losses

  // What arrives of a transfer: its payload, and the positions of the frames not lost.
  datatype Arrival = Arrival(payload: seq<u8>, idx: seq<nat>)

  predicate Proper(a: Arrival) { Sendable(a.payload) && Selection(a.idx, FrameCount(|a.payload|)) }

  predicate Whole(a: Arrival, limit: nat)
    requires Proper(a)
  {
    |a.idx| == FrameCount(|a.payload|) && |a.payload| <= limit
  }

  // Every gap so far is a multiple of sixteen frames.
  predicate Aligned(idx: seq<nat>, j: nat)
    requires j <= |idx|
  {
    forall i | 0 <= i < j :: idx[i] % 16 == i % 16
  }

  lemma {:induction false} Spread(idx: seq<nat>, n: nat, i: nat, j: nat)
    requires Selection(idx, n) && i <= j < |idx|
    ensures idx[j] - idx[i] >= j - i
  {
    if i < j {
      Spread(idx, n, i, j - 1);
    }
  }

  lemma AtMostAll(idx: seq<nat>, n: nat)
    requires Selection(idx, n)
    ensures |idx| <= n
  {
    if idx != [] {
      Spread(idx, n, 0, |idx| - 1);
    }
  }

  lemma NothingLost(p: seq<u8>, idx: seq<nat>)
    requires Sendable(p) && Selection(idx, FrameCount(|p|)) && |idx| == FrameCount(|p|)
    ensures idx[0] == 0 && Selected(p, idx) == Segmentation(p)
  {
    forall i | 0 <= i < |idx|
      ensures idx[i] == i
    {
      Spread(idx, |idx|, 0, i);
      Spread(idx, |idx|, i, |idx| - 1);
    }
  }

  // What a transfer with losses leaves behind, when its first frame arrives.
  ghost predicate Collects(s: R.View, limit: nat, p: seq<u8>, idx: seq<nat>, j: nat) {
    && R.Inv(s) && s.cfg.limit == limit
    && 0 < j <= |idx|
    && (s.phase == R.WaitCf <==> |p| <= limit && Aligned(idx, j))
    && (s.phase == R.WaitCf ==> s.nextSn == j % 16)
  }

  lemma AlignedMore(idx: seq<nat>, j: nat)
    requires j < |idx|
    ensures Aligned(idx, j + 1) <==> Aligned(idx, j) && idx[j] % 16 == j % 16
  {
  }

  lemma CollectsMore(s: R.View, p: seq<u8>, idx: seq<nat>, j: nat)
    requires Sendable(p) && Selection(idx, FrameCount(|p|)) && j < |idx| < FrameCount(|p|) && idx[0] == 0
    requires Behind(s, p, idx, j) && (j > 0 ==> Collects(s, s.cfg.limit, p, idx, j))
    ensures Collects(R.Step(s, FrameAt(p, idx[j])).0, s.cfg.limit, p, idx, j + 1)
  {
    var f := FrameAt(p, idx[j]);
    FrameShape(p, idx[j]);
    R.StepKeepsInv(s, f);
    CarriedAll(|p|);
    AlignedMore(idx, j);
    SnStep(j);
    if j > 0 {
      assert idx[0] < idx[j];
      if s.phase == R.WaitCf {
        assert |R.Taken(s, f)| <= 7;
        assert 6 + 7 * j < |p|;
      }
    }
  }

  lemma {:induction false} CollectsAt(s: R.View, p: seq<u8>, idx: seq<nat>, j: nat)
    requires R.Inv(s)
    requires Sendable(p) && Selection(idx, FrameCount(|p|)) && |idx| < FrameCount(|p|)
    requires 0 < j <= |idx| && idx[0] == 0
    ensures Collects(Fed(s, Selected(p, idx)[..j]), s.cfg.limit, p, idx, j)
  {
    var before := Fed(s, Selected(p, idx)[..j - 1]);
    BehindAt(s, p, idx, j - 1);
    if j > 1 {
      CollectsAt(s, p, idx, j - 1);
    }
    FedSnoc(s, Selected(p, idx), j - 1);
    CollectsMore(before, p, idx, j - 1);
  }

  lemma {:induction false} StaysIdle(s: R.View, p: seq<u8>, idx: seq<nat>, j: nat)
    requires R.Inv(s) && s.phase == R.Idle && Sendable(p) && Selection(idx, FrameCount(|p|))
    requires j <= |idx| && (idx != [] ==> idx[0] > 0)
    ensures Fed(s, Selected(p, idx)[..j]).phase == R.Idle && Fed(s, Selected(p, idx)[..j]).cfg == s.cfg
  {
    if j > 0 {
      StaysIdle(s, p, idx, j - 1);
      FedSnoc(s, Selected(p, idx), j - 1);
      assert j == 1 || idx[0] < idx[j - 1];
      FrameShape(p, idx[j - 1]);
    }
  }

  // Whether the receiver is collecting after an arrival: a first frame alone decides, and then
  // only gaps of a multiple of sixteen frames leave it collecting.
  predicate CollectingAfter(a: Arrival, collecting: bool, limit: nat)
    requires Proper(a)
  {
    if a.idx == [] then collecting
    else
      && a.idx[0] == 0 && |a.payload| <= limit
      && |a.idx| < FrameCount(|a.payload|)
      && Aligned(a.idx, |a.idx|)
  }

  lemma OneArrival(s: R.View, a: Arrival)
    requires R.Inv(s) && Proper(a) && (a.idx == [] || Fresh(s, a.idx))
    ensures var fs, limit := Selected(a.payload, a.idx), s.cfg.limit;
            && Reports(s, fs) == (if Whole(a, limit) then [a.payload] else [])
            && Fed(s, fs).cfg == s.cfg
            && (Fed(s, fs).phase == R.WaitCf <==> CollectingAfter(a, s.phase == R.WaitCf, limit))
  {
    FedKeepsCfg(s, Selected(a.payload, a.idx));
    AtMostAll(a.idx, FrameCount(|a.payload|));
    if |a.idx| == FrameCount(|a.payload|) {
      NothingLost(a.payload, a.idx);
      if |a.payload| <= s.cfg.limit {
        WholeReported(s, a.payload);
      } else {
        RefusedReported(s, a.payload);
      }
    } else if a.idx != [] {
      PartReported(s, a.payload, a.idx);
      PartLeaves(s, a.payload, a.idx);
    }
  }

  lemma PartReported(s: R.View, p: seq<u8>, idx: seq<nat>)
    requires R.Inv(s) && Fresh(s, idx)
    requires Sendable(p) && Selection(idx, FrameCount(|p|)) && |idx| < FrameCount(|p|)
    ensures Reports(s, Selected(p, idx)) == []
  {
    var fs := Selected(p, idx);
    forall j | 0 <= j < |fs|
      ensures EventAt(s, fs, j) != EvMessage
    {
      NoMessageFromAPart(s, p, idx, j);
    }
    SilentFrames(s, fs, |fs|);
    assert fs[..|fs|] == fs;
  }

  lemma PartLeaves(s: R.View, p: seq<u8>, idx: seq<nat>)
    requires R.Inv(s) && Fresh(s, idx) && idx != []
    requires Sendable(p) && Selection(idx, FrameCount(|p|)) && |idx| < FrameCount(|p|)
    ensures Fed(s, Selected(p, idx)).phase == R.WaitCf
            <==> idx[0] == 0 && |p| <= s.cfg.limit && Aligned(idx, |idx|)
  {
    assert Selected(p, idx)[..|idx|] == Selected(p, idx);
    if idx[0] == 0 {
      CollectsAt(s, p, idx, |idx|);
    } else {
      StaysIdle(s, p, idx, |idx|);
    }
  }

  lemma {:induction false} FedKeepsCfg(s: R.View, fs: seq<Frame>)
    requires R.Inv(s)
    ensures Fed(s, fs).cfg == s.cfg
  {
    if |fs| > 0 {
      FedKeepsCfg(s, fs[..|fs| - 1]);
      R.StepKeepsInv(Fed(s, fs[..|fs| - 1]), fs[|fs| - 1]);
    }
  }

  lemma WholeReported(s: R.View, p: seq<u8>)
    requires R.Inv(s) && Sendable(p) && |p| <= s.cfg.limit
    ensures Reports(s, Segmentation(p)) == [p] && Fed(s, Segmentation(p)).phase == R.Idle
  {
    RestReported(s, Segmentation(p), p, 0);
  }

  lemma RestReported(s: R.View, fs: seq<Frame>, p: seq<u8>, r: nat)
    requires HasReceived(s, p, r) && |p| <= s.cfg.limit && r < FrameCount(|p|)
    requires Carries(fs, p, r, FrameCount(|p|))
    ensures Reports(s, fs) == [p] && Fed(s, fs).phase == R.Idle
  {
    forall j | 0 <= j < |fs|
      ensures EventAt(s, fs, j) == EvMessage <==> j == |fs| - 1
    {
      InOrderEvents(s, fs, p, r, FrameCount(|p|), j);
    }
    InOrderAll(s, fs, p, r, FrameCount(|p|));
    LastFrameReports(s, fs);
  }

  // A payload beyond the limit: its first frame is refused, and no frame after it is expected.
  lemma {:induction false} RefusedAt(s: R.View, p: seq<u8>, j: nat)
    requires R.Inv(s) && Sendable(p) && |p| > s.cfg.limit && j < FrameCount(|p|)
    ensures EventAt(s, Segmentation(p), j) != EvMessage
    ensures Fed(s, Segmentation(p)[..j + 1]).phase == R.Idle
  {
    if j > 0 {
      RefusedAt(s, p, j - 1);
    }
    FrameShape(p, j);
    FedKeepsCfg(s, Segmentation(p)[..j]);
    FedSnoc(s, Segmentation(p), j);
  }

  lemma RefusedReported(s: R.View, p: seq<u8>)
    requires R.Inv(s) && Sendable(p) && |p| > s.cfg.limit
    ensures Reports(s, Segmentation(p)) == [] && Fed(s, Segmentation(p)).phase == R.Idle
  {
    var n := FrameCount(|p|);
    assert Segmentation(p)[..n] == Segmentation(p);
    forall j | 0 <= j < n
      ensures EventAt(s, Segmentation(p), j) != EvMessage
    {
      RefusedAt(s, p, j);
    }
    SilentFrames(s, Segmentation(p), n);
    RefusedAt(s, p, n - 1);
  }

  // ------------------------------------------------------------- one after another

  predicate AllProper(arrivals: seq<Arrival>) { forall i | 0 <= i < |arrivals| :: Proper(arrivals[i]) }

  function Stream(arrivals: seq<Arrival>): seq<Frame>
    requires AllProper(arrivals)
  {
    if arrivals == [] then []
    else Selected(arrivals[0].payload, arrivals[0].idx) + Stream(arrivals[1..])
  }

  function WholePayloads(arrivals: seq<Arrival>, limit: nat): seq<seq<u8>>
    requires AllProper(arrivals)
  {
    if arrivals == [] then []
    else
      (if Whole(arrivals[0], limit) then [arrivals[0].payload] else [])
      + WholePayloads(arrivals[1..], limit)
  }

  // No transfer loses its first frame, and not all others, while an earlier one is still open.
  predicate Separated(arrivals: seq<Arrival>, collecting: bool, limit: nat)
    requires AllProper(arrivals)
  {
    arrivals == []
    || (var a := arrivals[0];
        && (collecting && a.idx != [] ==> a.idx[0] == 0)
        && Separated(arrivals[1..], CollectingAfter(a, collecting, limit), limit))
  }

  /** Any number of transfers, each losing any of its frames, to a receiver in any state: unless one
      loses its first frame while an earlier one is still open, the messages reported are the payloads
      that arrived whole and fit, each once and in order. */
  lemma {:induction false} OnlyWholePayloads(s: R.View, arrivals: seq<Arrival>)
    requires R.Inv(s) && AllProper(arrivals) && Separated(arrivals, s.phase == R.WaitCf, s.cfg.limit)
    ensures Reports(s, Stream(arrivals)) == WholePayloads(arrivals, s.cfg.limit)
    decreases |arrivals|
  {
    if arrivals != [] {
      var fs := Selected(arrivals[0].payload, arrivals[0].idx);
      OneArrival(s, arrivals[0]);
      FedJoined(s, fs, Stream(arrivals[1..]));
      OnlyWholePayloads(Fed(s, fs), arrivals[1..]);
    }
  }

  // ------------------------------------------------------------- two transfers that run together

  // The bytes of the first r frames of p's segmentation and those of q's later frames.
  function Mixed(p: seq<u8>, q: seq<u8>, r: nat): (m: seq<u8>)
    requires |q| == |p| >= 8 && 0 < r
    ensures |m| == |p|
  {
    p[..Carried(|p|, r - 1)] + q[Carried(|p|, r - 1)..]
  }

  lemma MixedFrames(p: seq<u8>, q: seq<u8>, r: nat, k: nat)
    requires Sendable(p) && |q| == |p| >= 8 && 0 < r <= k < FrameCount(|p|)
    ensures FrameAt(Mixed(p, q, r), k) == FrameAt(q, k)
  {
    CarriedStep(|p|, r);
    CarriedStep(|p|, k);
    var from, to := Carried(|p|, k - 1), Carried(|p|, k);
    assert Mixed(p, q, r)[from..to] == q[from..to];
  }

  lemma MixedReported(s: R.View, p: seq<u8>, q: seq<u8>, r: nat)
    requires HasReceived(s, p, r) && |q| == |p| && |p| <= s.cfg.limit && 0 < r < FrameCount(|p|)
    ensures Reports(s, Segmentation(q)[r..]) == [Mixed(p, q, r)]
  {
    var m := Mixed(p, q, r);
    var c := Carried(|p|, r - 1);
    assert m[..c] == p[..c];
    assert HasReceived(s, m, r);
    forall k | r <= k < FrameCount(|p|)
      ensures FrameAt(m, k) == FrameAt(q, k)
    {
      MixedFrames(p, q, r, k);
    }
    RestReported(s, Segmentation(q)[r..], m, r);
  }

  lemma StartReported(s: R.View, p: seq<u8>, r: nat)
    requires R.Inv(s) && Sendable(p) && |p| <= s.cfg.limit && r < FrameCount(|p|)
    ensures HasReceived(Fed(s, Segmentation(p)[..r]), p, r)
    ensures Fed(s, Segmentation(p)[..r]).cfg == s.cfg
    ensures Reports(s, Segmentation(p)[..r]) == []
  {
    var fs := Segmentation(p);
    InOrder(s, fs, p, 0, FrameCount(|p|), r, r);
    forall j | 0 <= j < r
      ensures EventAt(s, fs, j) != EvMessage
    {
      InOrderEvents(s, fs, p, 0, FrameCount(|p|), j);
    }
    SilentFrames(s, fs, r);
  }

  /** When the rest of one transfer and just as much of the start of the next are lost, and the
      payloads are of one length, no error is seen and one message is reported, made of both. It is
      one of the payloads exactly when they agree on its first or its last part. */
  lemma MixedMessage(s: R.View, p: seq<u8>, q: seq<u8>, r: nat)
    requires R.Inv(s) && Sendable(p) && |q| == |p| && |p| <= s.cfg.limit && 0 < r < FrameCount(|p|)
    ensures var c, m := Carried(|p|, r - 1), Mixed(p, q, r);
            && Reports(s, Segmentation(p)[..r] + Segmentation(q)[r..]) == [m]
            && (m == p || m == q <==> p[c..] == q[c..] || p[..c] == q[..c])
  {
    StartReported(s, p, r);
    MixedReported(Fed(s, Segmentation(p)[..r]), p, q, r);
    FedJoined(s, Segmentation(p)[..r], Segmentation(q)[r..]);
    SplicedIsOneOf(p, q, Carried(|p|, r - 1));
  }

  lemma SplicedIsOneOf(p: seq<u8>, q: seq<u8>, c: nat)
    requires |q| == |p| && c <= |p|
    ensures p[..c] + q[c..] == p <==> q[c..] == p[c..]
    ensures p[..c] + q[c..] == q <==> p[..c] == q[..c]
  {
    var m := p[..c] + q[c..];
    assert m[..c] == p[..c] && m[c..] == q[c..];
    assert p == p[..c] + p[c..] && q == q[..c] + q[c..];
  }
}
