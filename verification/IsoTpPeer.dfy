/** The sender against any peer: any calls of isotp_tx_next mixed with any frames offered
    to isotp_tx_flow_control. */
module IsoTpPeer {
  import opened Words
  import opened IsoTpFormat
  import S = IsoTpSender

  datatype Call = NextCall | FlowCall(f: Frame)

  // What a run shows to the outside: frames on the bus and grants taken from the peer.
  datatype Mark = Sent(data: seq<u8>) | Granted(blockSize: u8, stMin: u8)

  datatype Trace = Trace(tx: S.View, marks: seq<Mark>)

  predicate IsGrant(tx: S.View, f: Frame) { S.Listens(tx) && f.dlc >= 3 && f.data[0] == 0x30 }

  function After(t: Trace, c: Call): (t1: Trace)
    requires S.Sound(t.tx)
    ensures S.Sound(t1.tx)
  {
    match c
    case NextCall =>
      var (tx, out) := S.Next(t.tx);
      Trace(tx, if out.Some? then t.marks + [Sent(out.value)] else t.marks)
    case FlowCall(f) =>
      Trace(S.Flow(t.tx, f).0, if IsGrant(t.tx, f) then t.marks + [Granted(f.data[1], f.data[2])] else t.marks)
  }

  function Run(p: seq<u8>, calls: seq<Call>): (t: Trace)
    requires Sendable(p)
    ensures S.Sound(t.tx)
  {
    if |calls| == 0 then Trace(S.Start(p), [])
    else
      After(Run(p, calls[..|calls| - 1]), calls[|calls| - 1])
  }

  // The frames a run put on the bus.
  function Frames(marks: seq<Mark>): seq<seq<u8>> {
    if |marks| == 0 then []
    else
      var last := marks[|marks| - 1];
      Frames(marks[..|marks| - 1]) + if last.Sent? then [last.data] else []
  }

  type Grant = m: Mark | m.Granted? witness Granted(0, 0)

  // The last grant, and how many frames left after it.
  function LastGrant(marks: seq<Mark>): Option<Grant> {
    if |marks| == 0 then None
    else if marks[|marks| - 1].Granted? then Some(marks[|marks| - 1])
    else LastGrant(marks[..|marks| - 1])
  }

  function SinceGrant(marks: seq<Mark>): nat {
    if |marks| == 0 || marks[|marks| - 1].Granted? then 0 else 1 + SinceGrant(marks[..|marks| - 1])
  }

  // At most the granted number of frames since a grant, unless it was unlimited; and before
  // any grant nothing but the single frame or the first frame.
  predicate BlockKept(marks: seq<Mark>) {
    match LastGrant(marks)
    case None => |Frames(marks)| <= 1
    case Some(g) => g.blockSize == 0 || SinceGrant(marks) <= g.blockSize
  }

  predicate IsSegmentationPrefix(fs: seq<seq<u8>>, p: seq<u8>)
    requires Sendable(p)
  {
    && |fs| <= FrameCount(|p|)
    && forall i | 0 <= i < |fs| :: fs[i] == FrameAt(p, i).data
  }

  ghost predicate Lawful(t: Trace, p: seq<u8>) {
    var g := LastGrant(t.marks);
    && S.Sound(t.tx)
    && S.HasSent(t.tx, p, |Frames(t.marks)|)
    && IsSegmentationPrefix(Frames(t.marks), p)
    && BlockKept(t.marks)
    && (t.tx.phase == S.Sending ==> g.Some?)
    && (g.Some? ==>
          && t.tx.blockSize == g.value.blockSize && t.tx.stMin == g.value.stMin
          && t.tx.cfInBlock == SinceGrant(t.marks) < |Frames(t.marks)|)
  }

  lemma MarkSnoc(marks: seq<Mark>, m: Mark)
    ensures Frames(marks + [m]) == Frames(marks) + if m.Sent? then [m.data] else []
    ensures LastGrant(marks + [m]) == if m.Granted? then Some(m) else LastGrant(marks)
    ensures SinceGrant(marks + [m]) == if m.Granted? then 0 else SinceGrant(marks) + 1
  {
    assert (marks + [m])[..|marks|] == marks;
  }

  lemma PrefixSnoc(fs: seq<seq<u8>>, p: seq<u8>)
    requires Sendable(p) && IsSegmentationPrefix(fs, p) && |fs| < FrameCount(|p|)
    ensures IsSegmentationPrefix(fs + [FrameAt(p, |fs|).data], p)
  {
  }

  lemma AfterNext(t: Trace, p: seq<u8>)
    requires Lawful(t, p)
    ensures Lawful(After(t, NextCall), p)
  {
    var k := |Frames(t.marks)|;
    S.NextSendsNextFrame(t.tx, p, k);
    S.NextCounts(t.tx, p, k);
    var (tx, out) := S.Next(t.tx);
    if out.Some? {
      MarkSnoc(t.marks, Sent(out.value));
      PrefixSnoc(Frames(t.marks), p);
    }
  }

  lemma AfterGrant(t: Trace, p: seq<u8>, f: Frame)
    requires Lawful(t, p) && IsGrant(t.tx, f)
    ensures Lawful(After(t, FlowCall(f)), p)
  {
    S.FlowKeepsProgress(t.tx, f, p, |Frames(t.marks)|);
    S.FlowInNumbers(t.tx, f);
    MarkSnoc(t.marks, Granted(f.data[1], f.data[2]));
    assert |Frames(t.marks)| > 0;
  }

  lemma AfterOtherFlow(t: Trace, p: seq<u8>, f: Frame)
    requires Lawful(t, p) && !IsGrant(t.tx, f)
    ensures Lawful(After(t, FlowCall(f)), p)
  {
    S.FlowKeepsProgress(t.tx, f, p, |Frames(t.marks)|);
    var tx := S.Flow(t.tx, f).0;
    assert tx.blockSize == t.tx.blockSize && tx.cfInBlock == t.tx.cfInBlock;
    assert tx.phase == S.Sending ==> t.tx.phase == S.Sending;
  }

  /** Whatever the peer sends and whenever: the frames on the bus are the first ones of the
      one segmentation, in order, and the block last granted is kept. */
  lemma {:induction false} AnyRunIsLawful(p: seq<u8>, calls: seq<Call>)
    requires Sendable(p)
    ensures Lawful(Run(p, calls), p)
  {
    if |calls| > 0 {
      AnyRunIsLawful(p, calls[..|calls| - 1]);
      var t := Run(p, calls[..|calls| - 1]);
      match calls[|calls| - 1]
      case NextCall => AfterNext(t, p);
      case FlowCall(f) =>
        if IsGrant(t.tx, f) {
          AfterGrant(t, p, f);
        } else {
          AfterOtherFlow(t, p, f);
        }
    }
  }

  // So between any two grants of a run no more frames leave than the first of them allows.
  lemma {:induction false} EveryBlockIsKept(p: seq<u8>, calls: seq<Call>, i: nat)
    requires Sendable(p) && i <= |Run(p, calls).marks|
    ensures BlockKept(Run(p, calls).marks[..i])
  {
    var marks := Run(p, calls).marks;
    if i == |marks| {
      assert marks[..i] == marks;
      AnyRunIsLawful(p, calls);
    } else {
      var before := Run(p, calls[..|calls| - 1]).marks;
      assert i <= |before| && marks[..i] == before[..i];
      EveryBlockIsKept(p, calls[..|calls| - 1], i);
    }
  }

  // An aborted or finished sender stays so and sends nothing more, and it is finished just
  // when the whole segmentation is on the bus.
  lemma {:induction false} EndIsFinal(p: seq<u8>, calls: seq<Call>, more: seq<Call>)
    requires Sendable(p)
    requires Run(p, calls).tx.phase == S.Done || Run(p, calls).tx.phase == S.Aborted
    ensures Run(p, calls + more) == Run(p, calls)
    ensures Run(p, calls).tx.phase == S.Done <==> |Frames(Run(p, calls).marks)| == FrameCount(|p|)
  {
    AnyRunIsLawful(p, calls);
    if |more| == 0 {
      assert calls + more == calls;
    } else {
      EndIsFinal(p, calls, more[..|more| - 1]);
      assert (calls + more)[..|calls + more| - 1] == calls + more[..|more| - 1];
      EndStays(Run(p, calls), more[|more| - 1]);
    }
  }

  lemma EndStays(t: Trace, c: Call)
    requires S.Sound(t.tx) && (t.tx.phase == S.Done || t.tx.phase == S.Aborted)
    ensures After(t, c) == t
  {
  }

  // An overflow status, or one that is unknown, ends the transfer, and nothing else does before all
  // frames are sent.
  predicate IsRefusal(tx: S.View, f: Frame) { S.Listens(tx) && S.IsFlowControl(f) && f.data[0] >= 0x32 }

  predicate RefusedAt(p: seq<u8>, calls: seq<Call>, i: nat)
    requires Sendable(p)
  {
    i < |calls| && calls[i].FlowCall? && IsRefusal(Run(p, calls[..i]).tx, calls[i].f)
  }

  lemma RefusedSnoc(p: seq<u8>, front: seq<Call>, c: Call, calls: seq<Call>, i: nat)
    requires Sendable(p) && calls == front + [c]
    ensures RefusedAt(p, calls, i) <==>
            RefusedAt(p, front, i) || (i == |front| && c.FlowCall? && IsRefusal(Run(p, front).tx, c.f))
  {
    if i <= |front| {
      assert calls[..i] == front[..i];
      assert front[..|front|] == front;
    }
  }

  lemma {:induction false} AbortedIffRefused(p: seq<u8>, calls: seq<Call>)
    requires Sendable(p)
    ensures Run(p, calls).tx.phase == S.Aborted <==> exists i :: RefusedAt(p, calls, i)
  {
    if |calls| > 0 {
      var front, c := calls[..|calls| - 1], calls[|calls| - 1];
      AbortedIffRefused(p, front);
      AbortedNext(Run(p, front), c);
      forall i: nat
        ensures RefusedAt(p, calls, i) <==>
                RefusedAt(p, front, i) || (i == |front| && c.FlowCall? && IsRefusal(Run(p, front).tx, c.f))
      {
        RefusedSnoc(p, front, c, calls, i);
      }
      RefusedSnoc(p, front, c, calls, |front|);
    }
  }

  lemma AbortedNext(t: Trace, c: Call)
    requires S.Sound(t.tx)
    ensures After(t, c).tx.phase == S.Aborted <==>
            t.tx.phase == S.Aborted || (c.FlowCall? && IsRefusal(t.tx, c.f))
  {
  }

  predicate IsWait(tx: S.View, f: Frame) { S.Listens(tx) && f.dlc >= 3 && f.data[0] == 0x31 }

  // How many wait frames a run has accepted.
  function Waits(p: seq<u8>, calls: seq<Call>): nat
    requires Sendable(p)
  {
    if |calls| == 0 then 0
    else
      var front, c := calls[..|calls| - 1], calls[|calls| - 1];
      Waits(p, front) + if c.FlowCall? && IsWait(Run(p, front).tx, c.f) then 1 else 0
  }

  // The sender counts them, modulo 2^32,
  lemma {:induction false} WaitsAreCounted(p: seq<u8>, calls: seq<Call>)
    requires Sendable(p)
    ensures Run(p, calls).tx.waitCount == Wrap32(Waits(p, calls))
  {
    if |calls| > 0 {
      var front, c := calls[..|calls| - 1], calls[|calls| - 1];
      WaitsAreCounted(p, front);
      WaitCounted(Run(p, front), c);
      WrapSum(Waits(p, front), 1);
    }
  }

  lemma WaitCounted(t: Trace, c: Call)
    requires S.Sound(t.tx)
    ensures After(t, c).tx.waitCount ==
            if c.FlowCall? && IsWait(t.tx, c.f) then Wrap32(t.tx.waitCount + 1) else t.tx.waitCount
  {
  }

  // and after one it sends nothing when asked.
  lemma WaitSilences(p: seq<u8>, calls: seq<Call>, f: Frame)
    requires Sendable(p) && IsWait(Run(p, calls).tx, f)
    ensures Run(p, calls + [FlowCall(f), NextCall]).marks == Run(p, calls).marks
    ensures Run(p, calls + [FlowCall(f), NextCall]).tx.phase == S.WaitFc
  {
    var waited := calls + [FlowCall(f)];
    var asked := calls + [FlowCall(f), NextCall];
    assert waited[..|calls|] == calls && asked[..|calls| + 1] == waited;
    assert Run(p, waited) == After(Run(p, calls), FlowCall(f));
    assert Run(p, asked) == After(Run(p, waited), NextCall);
  }
}
