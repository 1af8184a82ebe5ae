/** Encoded frames through noise, and resynchronisation, for any checksum that the sender can
    split. */
module FrameRoundTrip {
  import opened Words
  import opened FrameParser
  import opened FrameStream

  // ------------------------------------------------------------- one frame

  lemma {:induction false} EncodeParts<C>(code: Code<C>, p: seq<u8>)
    requires |p| <= MAX_PAYLOAD
    ensures var e := Encode(code, p);
            var crc := FrameCrc(code, |p|, p);
            && |e| == |p| + 5
            && Carries(e, |p|, p) && e[1] == |p|
            && e[|p| + 2] == code.lowByte(crc) && e[|p| + 3] == code.highByte(crc) && e[|p| + 4] == ETX
  {
    assert Encode(code, p)[2..|p| + 2] == p;
  }

  // An encoded frame is reported as complete at its last byte, with its payload, and nothing
  // is reported before.
  lemma {:induction false} EncodedRuns<C(!new)>(code: Code<C>, s: View<C>, p: seq<u8>)
    requires Splits(code) && Inv(s) && s.phase == Idle && |p| <= MAX_PAYLOAD
    ensures var t := Run(code, s, Encode(code, p));
            t.phase == Idle && t.stats == s.stats.(framesOk := Bump(s.stats.framesOk))
    ensures Reports(code, s, Encode(code, p)) == Quiets(|p| + 4) + [Complete(p)]
  {
    var e := Encode(code, p);
    EncodeParts(code, p);
    FrameRun(code, s, e, |p|, p);
    assert e[..|p| + 5] == e;
  }

  // ------------------------------------------------------------- noise

  lemma {:induction false} NoiseRuns<C>(code: Code<C>, s: View<C>, noise: seq<u8>)
    requires Inv(s) && s.phase == Idle && STX !in noise
    ensures var t := Run(code, s, noise);
            t.phase == Idle && t.stats == s.stats.(discarded := Wrap32(s.stats.discarded + |noise|))
    ensures Reports(code, s, noise) == Quiets(|noise|)
  {
    if |noise| > 0 {
      var k := |noise| - 1;
      NoiseRuns(code, s, noise[..k]);
      RunNext(code, s, noise, k);
      assert noise[..k + 1] == noise;
      BumpMore(s.stats.discarded, k);
      assert Quiets(k) + [Quiet] == Quiets(k + 1);
    }
  }

  // ------------------------------------------------------------- streams of frames

  // A payload, and the noise before its frame.
  datatype Item = Item(noise: seq<u8>, payload: seq<u8>)

  ghost predicate Sendable(items: seq<Item>) {
    forall i | 0 <= i < |items| :: STX !in items[i].noise && |items[i].payload| <= MAX_PAYLOAD
  }

  function Stream<C>(code: Code<C>, items: seq<Item>): seq<u8>
    requires Sendable(items)
  {
    if |items| == 0 then []
    else
      var last := items[|items| - 1];
      Stream(code, items[..|items| - 1]) + (last.noise + Encode(code, last.payload))
  }

  function Expected(items: seq<Item>): seq<Report> {
    if |items| == 0 then []
    else
      var last := items[|items| - 1];
      Expected(items[..|items| - 1]) + ItemReports(last)
  }

  function NoiseLength(items: seq<Item>): nat {
    if |items| == 0 then 0 else NoiseLength(items[..|items| - 1]) + |items[|items| - 1].noise|
  }

  function Received(st: Stats, frames: nat, noise: nat): Stats {
    st.(framesOk := Wrap32(st.framesOk + frames), discarded := Wrap32(st.discarded + noise))
  }

  lemma {:induction false} ReceivedMore(st: Stats, frames: nat, noise: nat, more: nat)
    ensures var a := Received(st, frames, noise);
            AfterItem(a, more) == Received(st, frames + 1, noise + more)
  {
    BumpMore(st.framesOk, frames);
    WrapSum(st.discarded + noise, more);
  }

  // Bytes that take the parser from idle to idle, what they do to the counters and what they
  // make it report.
  ghost predicate Takes<C>(code: Code<C>, s: View<C>, bytes: seq<u8>, st: Stats, rs: seq<Report>) {
    && Inv(s) && s.phase == Idle
    && Run(code, s, bytes).phase == Idle && Run(code, s, bytes).stats == st
    && Reports(code, s, bytes) == rs
  }

  lemma {:induction false} TakesConcat<C>(
    code: Code<C>, s: View<C>, a: seq<u8>, b: seq<u8>, st: Stats, ra: seq<Report>, rb: seq<Report>)
    requires Inv(s) && Takes(code, s, a, Run(code, s, a).stats, ra)
    requires Takes(code, Run(code, s, a), b, st, rb)
    ensures Takes(code, s, a + b, st, ra + rb)
  {
    RunConcat(code, s, a, b);
  }

  lemma {:induction false} EncodedTaken<C(!new)>(code: Code<C>, s: View<C>, p: seq<u8>)
    requires Splits(code) && Inv(s) && s.phase == Idle && |p| <= MAX_PAYLOAD
    ensures Takes(code, s, Encode(code, p), s.stats.(framesOk := Bump(s.stats.framesOk)),
                  Quiets(|p| + 4) + [Complete(p)])
  {
    EncodedRuns(code, s, p);
  }

  lemma {:induction false} NoiseTaken<C>(code: Code<C>, s: View<C>, noise: seq<u8>)
    requires Inv(s) && s.phase == Idle && STX !in noise
    ensures Takes(code, s, noise, s.stats.(discarded := Wrap32(s.stats.discarded + |noise|)), Quiets(|noise|))
  {
    NoiseRuns(code, s, noise);
  }

  function AfterItem(st: Stats, noise: nat): Stats {
    var a := st.(discarded := Wrap32(st.discarded + noise));
    a.(framesOk := Bump(a.framesOk))
  }

  function ItemReports(item: Item): seq<Report> {
    Quiets(|item.noise|) + (Quiets(|item.payload| + 4) + [Complete(item.payload)])
  }

  lemma {:induction false} ItemTaken<C(!new)>(code: Code<C>, s: View<C>, item: Item)
    requires Splits(code) && Inv(s) && s.phase == Idle
    requires STX !in item.noise && |item.payload| <= MAX_PAYLOAD
    ensures Takes(code, s, item.noise + Encode(code, item.payload), AfterItem(s.stats, |item.noise|), ItemReports(item))
  {
    NoiseTaken(code, s, item.noise);
    var t := Run(code, s, item.noise);
    EncodedTaken(code, t, item.payload);
    TakesConcat(code, s, item.noise, Encode(code, item.payload), AfterItem(s.stats, |item.noise|),
                Quiets(|item.noise|), Quiets(|item.payload| + 4) + [Complete(item.payload)]);
  }

  /** Any number of encoded frames, with any noise without a start byte before and between
      them, comes out as exactly those payloads, one report each at the frame's last byte and
      no other event; the counters grow by the frames and by the noise. */
  lemma {:induction false} StreamRoundTrip<C(!new)>(code: Code<C>, s: View<C>, items: seq<Item>)
    requires Splits(code) && Inv(s) && s.phase == Idle && Sendable(items)
    ensures Takes(code, s, Stream(code, items), Received(s.stats, |items|, NoiseLength(items)), Expected(items))
  {
    if |items| > 0 {
      var k := |items| - 1;
      StreamRoundTrip(code, s, items[..k]);
      ThenItem(code, s, items[..k], items[k], items);
    }
  }

  lemma {:induction false} ThenItem<C(!new)>(code: Code<C>, s: View<C>, front: seq<Item>, last: Item, items: seq<Item>)
    requires Splits(code) && Sendable(front) && STX !in last.noise && |last.payload| <= MAX_PAYLOAD
    requires Takes(code, s, Stream(code, front), Received(s.stats, |front|, NoiseLength(front)), Expected(front))
    requires |items| == |front| + 1 && items[..|front|] == front && items[|front|] == last
    ensures Sendable(items)
    ensures Takes(code, s, Stream(code, items), Received(s.stats, |items|, NoiseLength(items)), Expected(items))
  {
    SendableSnoc(front, last, items);
    ItemTaken(code, Run(code, s, Stream(code, front)), last);
    ReceivedMore(s.stats, |front|, NoiseLength(front), |last.noise|);
    TakesConcat(code, s, Stream(code, front), last.noise + Encode(code, last.payload),
                Received(s.stats, |items|, NoiseLength(items)), Expected(front), ItemReports(last));
  }

  lemma {:induction false} SendableSnoc(front: seq<Item>, last: Item, items: seq<Item>)
    requires Sendable(front) && STX !in last.noise && |last.payload| <= MAX_PAYLOAD
    requires |items| == |front| + 1 && items[..|front|] == front && items[|front|] == last
    ensures Sendable(items)
  {
    forall i | 0 <= i < |items|
      ensures STX !in items[i].noise && |items[i].payload| <= MAX_PAYLOAD
    {
      assert i < |front| ==> items[i] == front[i];
    }
  }

  /** The same with noise after the last frame. */
  lemma {:induction false} StreamThenNoise<C(!new)>(code: Code<C>, s: View<C>, items: seq<Item>, noise: seq<u8>)
    requires Splits(code) && Inv(s) && s.phase == Idle && Sendable(items) && STX !in noise
    ensures Takes(code, s, Stream(code, items) + noise,
                  Received(s.stats, |items|, NoiseLength(items) + |noise|), Expected(items) + Quiets(|noise|))
  {
    StreamRoundTrip(code, s, items);
    NoiseTaken(code, Run(code, s, Stream(code, items)), noise);
    WrapSum(s.stats.discarded + NoiseLength(items), |noise|);
    TakesConcat(code, s, Stream(code, items), noise,
                Received(s.stats, |items|, NoiseLength(items) + |noise|), Expected(items), Quiets(|noise|));
  }

  // ------------------------------------------------------------- nothing else is reported

  // The bytes up to byte i end in a frame with payload p.
  predicate FrameEnds<C(==)>(code: Code<C>, bytes: seq<u8>, i: nat, p: seq<u8>) {
    |p| + 5 <= i + 1 <= |bytes| && IsFrame(code, bytes[i - |p| - 4..i + 1], p)
  }

  /** A payload is reported only when the bytes just fed end in a frame that carries it. */
  lemma {:induction false} CompleteIsFrame<C(!new)>(code: Code<C>, bytes: seq<u8>, i: nat, p: seq<u8>)
    requires i < |bytes| && Scan(code, bytes)[i] == Complete(p)
    ensures FrameEnds(code, bytes, i, p)
    decreases |bytes|, 2
  {
    if bytes[0] != STX {
      CompleteLater(code, bytes, 1, i, p);
    } else if !Opens(bytes) {
      CompleteLater(code, bytes, 2, i, p);
    } else {
      ReportInFrame(code, bytes, i, bytes[1], p);
      CompleteInFrame(code, bytes, i, bytes[1], p);
    }
  }

  lemma {:induction false} CompleteInFrame<C(!new)>(code: Code<C>, bytes: seq<u8>, i: nat, n: nat, p: seq<u8>)
    requires i < |bytes| && Opens(bytes) && n == bytes[1]
    requires CompleteFrom(code, bytes, i, n, p)
    ensures FrameEnds(code, bytes, i, p)
    decreases |bytes|, 1
  {
    if Later(code, bytes, n + 4, i, p) {
      CompleteLater(code, bytes, n + 4, i, p);
    } else if Later(code, bytes, n + 5, i, p) {
      CompleteLater(code, bytes, n + 5, i, p);
    } else {
      CarriedEnds(code, bytes, n, p);
    }
  }

  // The checksum bytes after a payload of n bytes are right.
  predicate Right<C(==)>(code: Code<C>, bytes: seq<u8>, n: nat)
    requires n + 4 <= |bytes|
  {
    Word(code, bytes[n + 2], bytes[n + 3]) == FrameCrc(code, bytes[1], bytes[2..n + 2])
  }

  lemma {:induction false} AfterFront(front: seq<Report>, r: Report, rest: seq<Report>, i: nat)
    requires i < |front + [r] + rest|
    ensures (front + [r] + rest)[i] ==
            if i < |front| then front[i] else if i == |front| then r else rest[i - |front| - 1]
  {
  }

  // The grammar reports p at byte i, which is k bytes further on.
  predicate Later<C(==)>(code: Code<C>, bytes: seq<u8>, k: nat, i: nat, p: seq<u8>) {
    0 < k <= i < |bytes| && Scan(code, bytes[k..])[i - k] == Complete(p)
  }

  // Where a payload reported in or after a frame comes from: from after the checksum if that is
  // wrong, from after the frame, or from the frame itself.
  predicate CompleteFrom<C(==)>(code: Code<C>, bytes: seq<u8>, i: nat, n: nat, p: seq<u8>) {
    && n + 4 <= |bytes|
    && if !Right(code, bytes, n) then Later(code, bytes, n + 4, i, p)
       else Later(code, bytes, n + 5, i, p)
            || (i == n + 4 < |bytes| && p == bytes[2..n + 2] && bytes[n + 4] == ETX)
  }

  lemma {:induction false} ReportInFrame<C(!new)>(code: Code<C>, bytes: seq<u8>, i: nat, n: nat, p: seq<u8>)
    requires i < |bytes| && Opens(bytes) && n == bytes[1]
    requires ScanFrame(code, bytes, n)[i] == Complete(p)
    ensures CompleteFrom(code, bytes, i, n, p)
  {
    if n + 4 <= |bytes| {
      if !Right(code, bytes, n) {
        AfterFront(Quiets(n + 3), BadCrc, Scan(code, bytes[n + 4..]), i);
      } else if n + 5 <= |bytes| {
        var r := if bytes[n + 4] != ETX then BadFraming else Complete(bytes[2..n + 2]);
        AfterFront(Quiets(n + 4), r, Scan(code, bytes[n + 5..]), i);
      }
    }
  }

  lemma {:induction false} CompleteLater<C(!new)>(code: Code<C>, bytes: seq<u8>, k: nat, i: nat, p: seq<u8>)
    requires Later(code, bytes, k, i, p)
    ensures FrameEnds(code, bytes, i, p)
    decreases |bytes|, 0
  {
    CompleteIsFrame(code, bytes[k..], i - k, p);
    EndsLater(code, bytes, k, i, p);
  }

  lemma {:induction false} EndsLater<C>(code: Code<C>, bytes: seq<u8>, k: nat, i: nat, p: seq<u8>)
    requires 0 < k <= i < |bytes| && FrameEnds(code, bytes[k..], i - k, p)
    ensures FrameEnds(code, bytes, i, p)
  {
    assert bytes[k..][i - k - |p| - 4..i - k + 1] == bytes[i - |p| - 4..i + 1];
  }

  lemma {:induction false} CarriedEnds<C>(code: Code<C>, bytes: seq<u8>, n: nat, p: seq<u8>)
    requires Carries(bytes, n, p) && |bytes| >= n + 5
    requires Right(code, bytes, n) && bytes[n + 4] == ETX
    ensures FrameEnds(code, bytes, n + 4, p)
  {
    CarriedIsFrame(code, bytes, n, p);
    assert bytes[n + 4 - |p| - 4..n + 5] == bytes[..n + 5];
  }

  lemma {:induction false} CarriedIsFrame<C>(code: Code<C>, bytes: seq<u8>, n: nat, p: seq<u8>)
    requires Carries(bytes, n, p) && |bytes| >= n + 5
    requires Word(code, bytes[n + 2], bytes[n + 3]) == FrameCrc(code, bytes[1], p)
    requires bytes[n + 4] == ETX
    ensures IsFrame(code, bytes[..n + 5], p)
  {
    assert bytes[..n + 5][2..n + 2] == p;
  }

  // ------------------------------------------------------------- resynchronisation

  // The longest the parser can stay in a frame.
  function Remaining<C>(s: View<C>): nat
    requires Inv(s)
  {
    match s.phase
    case Idle => 0
    case Len => MAX_PAYLOAD + 4
    case Payload => s.length - s.index + 3
    case CrcLo => 3
    case CrcHi => 2
    case Etx => 1
  }

  lemma {:induction false} RemainingShrinks<C>(code: Code<C>, s: View<C>, b: u8)
    requires Inv(s) && b != STX
    ensures Inv(Step(code, s, b).0)
    ensures var t := Step(code, s, b).0;
            if s.phase == Idle then t.phase == Idle else Remaining(t) < Remaining(s)
  {
    StepKeepsInv(code, s, b);
  }

  lemma {:induction false} GapShrinks<C>(code: Code<C>, s: View<C>, gap: seq<u8>)
    requires Inv(s) && STX !in gap
    ensures Remaining(Run(code, s, gap)) <= if |gap| < Remaining(s) then Remaining(s) - |gap| else 0
  {
    if |gap| > 0 {
      var k := |gap| - 1;
      GapShrinks(code, s, gap[..k]);
      RunNext(code, s, gap, k);
      assert gap[..k + 1] == gap;
      RemainingShrinks(code, Run(code, s, gap[..k]), gap[k]);
    }
  }

  /** Whatever happened before, 68 bytes without a start byte make the parser idle, and the
      next good frame is received. */
  lemma {:induction false} GapResynchronises<C(!new)>(code: Code<C>, s: View<C>, gap: seq<u8>, p: seq<u8>)
    requires Splits(code) && Inv(s) && STX !in gap && |gap| >= MAX_PAYLOAD + 4 && |p| <= MAX_PAYLOAD
    ensures var t := Run(code, s, gap);
            t.phase == Idle && Reports(code, t, Encode(code, p)) == Quiets(|p| + 4) + [Complete(p)]
  {
    GapShrinks(code, s, gap);
    EncodedRuns(code, Run(code, s, gap), p);
  }
}
