/** What the parser reports on whole byte streams, for any checksum, and a grammar that says the
    same. */
module FrameStream {
  import opened Words
  import opened FrameParser

  // What a caller learns at a byte: the event and, when a frame is complete, its payload.
  datatype Report = Quiet | Complete(payload: seq<u8>) | BadLength | BadCrc | BadFraming

  function ReportOf<C>(s: View<C>, ev: Event): Report
    requires Inv(s)
  {
    match ev
    case EvNone => Quiet
    case EvComplete => Complete(s.payload[..s.length])
    case EvErrLength => BadLength
    case EvErrCrc => BadCrc
    case EvErrFraming => BadFraming
  }

  function Run<C(==)>(code: Code<C>, s: View<C>, bytes: seq<u8>): (t: View<C>)
    requires Inv(s)
    ensures Inv(t)
  {
    if |bytes| == 0 then s
    else
      var t := Run(code, s, bytes[..|bytes| - 1]);
      StepKeepsInv(code, t, bytes[|bytes| - 1]);
      Step(code, t, bytes[|bytes| - 1]).0
  }

  function ReportAt<C(==)>(code: Code<C>, s: View<C>, b: u8): Report
    requires Inv(s)
  {
    StepKeepsInv(code, s, b);
    ReportOf(Step(code, s, b).0, Step(code, s, b).1)
  }

  // One report for each byte.
  function Reports<C(==)>(code: Code<C>, s: View<C>, bytes: seq<u8>): (rs: seq<Report>)
    requires Inv(s)
    ensures |rs| == |bytes|
  {
    if |bytes| == 0 then []
    else
      var front := bytes[..|bytes| - 1];
      Reports(code, s, front) + [ReportAt(code, Run(code, s, front), bytes[|bytes| - 1])]
  }

  lemma {:induction false} RunConcat<C>(code: Code<C>, s: View<C>, a: seq<u8>, b: seq<u8>)
    requires Inv(s)
    ensures Run(code, s, a + b) == Run(code, Run(code, s, a), b)
    ensures Reports(code, s, a + b) == Reports(code, s, a) + Reports(code, Run(code, s, a), b)
  {
    if |b| == 0 {
      assert a + b == a;
    } else {
      RunConcat(code, s, a, b[..|b| - 1]);
      assert (a + b)[..|a + b| - 1] == a + b[..|b| - 1];
    }
  }

  lemma {:induction false} RunOne<C>(code: Code<C>, s: View<C>, b: u8)
    requires Inv(s)
    ensures Run(code, s, [b]) == Step(code, s, b).0 && Reports(code, s, [b]) == [ReportAt(code, s, b)]
  {
    assert [b][..0] == [];
  }

  lemma {:induction false} RunNext<C>(code: Code<C>, s: View<C>, bytes: seq<u8>, k: nat)
    requires Inv(s) && k < |bytes|
    ensures Run(code, s, bytes[..k + 1]) == Step(code, Run(code, s, bytes[..k]), bytes[k]).0
    ensures Reports(code, s, bytes[..k + 1]) ==
            Reports(code, s, bytes[..k]) + [ReportAt(code, Run(code, s, bytes[..k]), bytes[k])]
  {
    assert bytes[..k + 1][..k] == bytes[..k];
  }

  function Quiets(n: nat): seq<Report> { seq(n, _ => Quiet) }

  // ------------------------------------------------------------- the frame format

  function Folded<C>(code: Code<C>, c: C, data: seq<u8>): C {
    if |data| == 0 then c else code.update(Folded(code, c, data[..|data| - 1]), data[|data| - 1])
  }

  // The checksum of a frame covers its length byte and its payload.
  function FrameCrc<C>(code: Code<C>, len: u8, p: seq<u8>): C { Folded(code, code.init, [len] + p) }

  function Word<C>(code: Code<C>, lo: u8, hi: u8): C { code.join(code.low(lo), hi) }

  // A frame as the sender builds it.
  function Encode<C>(code: Code<C>, p: seq<u8>): seq<u8>
    requires |p| <= MAX_PAYLOAD
  {
    var crc := FrameCrc(code, |p|, p);
    [STX, |p|] + p + [code.lowByte(crc), code.highByte(crc), ETX]
  }

  // The two bytes into which the sender splits a checksum make it again.
  ghost predicate Splits<C(!new)>(code: Code<C>) {
    forall c :: Word(code, code.lowByte(c), code.highByte(c)) == c
  }

  // The bytes of a good frame: start, length, payload, the checksum of both with its low byte
  // first, end.
  predicate IsFrame<C(==)>(code: Code<C>, f: seq<u8>, p: seq<u8>) {
    && |p| <= MAX_PAYLOAD && |f| == |p| + 5
    && f[0] == STX && f[1] == |p| && f[2..|p| + 2] == p
    && Word(code, f[|p| + 2], f[|p| + 3]) == FrameCrc(code, |p|, p)
    && f[|p| + 4] == ETX
  }

  // ------------------------------------------------------------- a grammar for streams

  // A stream that opens a frame with a good length.
  predicate Opens(bytes: seq<u8>) { |bytes| >= 2 && bytes[0] == STX && bytes[1] <= MAX_PAYLOAD }

  /** The reports of a stream, by recursive descent: bytes outside of frames are skipped; a
      start byte opens a frame, whose length is checked, whose payload and checksum are
      compared and whose end byte is checked; what follows is read afresh. */
  function Scan<C(==)>(code: Code<C>, bytes: seq<u8>): (rs: seq<Report>)
    ensures |rs| == |bytes|
    decreases |bytes|, 1
  {
    if |bytes| == 0 then []
    else if bytes[0] != STX then [Quiet] + Scan(code, bytes[1..])
    else if |bytes| == 1 then [Quiet]
    else if bytes[1] > MAX_PAYLOAD then [Quiet, BadLength] + Scan(code, bytes[2..])
    else ScanFrame(code, bytes, bytes[1])
  }

  function ScanFrame<C(==)>(code: Code<C>, bytes: seq<u8>, n: nat): (rs: seq<Report>)
    requires Opens(bytes) && n == bytes[1]
    ensures |rs| == |bytes|
    decreases |bytes|, 0
  {
    if |bytes| < n + 4 then Quiets(|bytes|)
    else if Word(code, bytes[n + 2], bytes[n + 3]) != FrameCrc(code, bytes[1], bytes[2..n + 2]) then
      Quiets(n + 3) + [BadCrc] + Scan(code, bytes[n + 4..])
    else if |bytes| == n + 4 then Quiets(n + 4)
    else if bytes[n + 4] != ETX then Quiets(n + 4) + [BadFraming] + Scan(code, bytes[n + 5..])
    else Quiets(n + 4) + [Complete(bytes[2..n + 2])] + Scan(code, bytes[n + 5..])
  }

  // ------------------------------------------------------------- the parser inside a frame

  // The parser, idle in s, has taken a start byte, a good length and the first bytes q of a
  // payload.
  ghost predicate InFrame<C>(code: Code<C>, t: View<C>, s: View<C>, len: u8, n: nat, q: seq<u8>) {
    && Inv(t)
    && |q| <= n <= MAX_PAYLOAD
    && t.stats == s.stats
    && t.length == n && t.index == |q|
    && t.payload[..|q|] == q
    && t.computed == FrameCrc(code, len, q)
    && t.phase == if |q| < n then Payload else CrcLo
  }

  lemma {:induction false} FoldOne<C>(code: Code<C>, c: C, b: u8)
    ensures Folded(code, c, [b] + []) == code.update(c, b)
  {
    assert [b] + [] == [b];
    assert [b][..0] == [];
    assert Folded(code, c, []) == c;
  }

  lemma {:induction false} FoldMore<C>(code: Code<C>, c: C, a: seq<u8>, b: u8)
    ensures Folded(code, c, a + [b]) == code.update(Folded(code, c, a), b)
  {
    assert (a + [b])[..|a|] == a;
  }

  lemma {:induction false} FrameOpens<C>(code: Code<C>, s: View<C>, bytes: seq<u8>)
    requires Inv(s) && s.phase == Idle && Opens(bytes)
    ensures InFrame(code, Run(code, s, bytes[..2]), s, bytes[1], bytes[1], [])
    ensures Reports(code, s, bytes[..2]) == Quiets(2)
  {
    assert bytes[..0] == [];
    RunNext(code, s, bytes, 0);
    RunNext(code, s, bytes, 1);
    FoldOne(code, code.init, bytes[1]);
  }

  lemma {:induction false} PayloadByte<C>(code: Code<C>, t: View<C>, s: View<C>, len: u8, n: nat, q: seq<u8>, b: u8)
    requires InFrame(code, t, s, len, n, q) && |q| < n
    ensures InFrame(code, Step(code, t, b).0, s, len, n, q + [b]) && ReportAt(code, t, b) == Quiet
  {
    StepKeepsInv(code, t, b);
    FoldMore(code, code.init, [len] + q, b);
    assert ([len] + q) + [b] == [len] + (q + [b]);
    assert t.payload[|q| := b][..|q| + 1] == q + [b];
  }

  lemma {:induction false} PayloadNext<C>(code: Code<C>, s: View<C>, bytes: seq<u8>, n: nat, k: nat)
    requires Inv(s) && k < n && k + 2 < |bytes|
    requires InFrame(code, Run(code, s, bytes[..k + 2]), s, bytes[1], n, bytes[2..k + 2])
    ensures InFrame(code, Run(code, s, bytes[..k + 3]), s, bytes[1], n, bytes[2..k + 3])
    ensures Reports(code, s, bytes[..k + 3]) == Reports(code, s, bytes[..k + 2]) + [Quiet]
  {
    var t, q, b := Run(code, s, bytes[..k + 2]), bytes[2..k + 2], bytes[k + 2];
    assert bytes[2..k + 3] == q + [b];
    assert Run(code, s, bytes[..k + 3]) == Step(code, t, b).0 by {
      RunNext(code, s, bytes, k + 2);
    }
    assert Reports(code, s, bytes[..k + 3]) == Reports(code, s, bytes[..k + 2]) + [ReportAt(code, t, b)] by {
      RunNext(code, s, bytes, k + 2);
    }
    PayloadByte(code, t, s, bytes[1], n, q, b);
  }

  lemma {:induction false} PayloadRun<C>(code: Code<C>, s: View<C>, bytes: seq<u8>, n: nat, k: nat)
    requires Inv(s) && s.phase == Idle && Opens(bytes) && n == bytes[1]
    requires k <= n && k + 2 <= |bytes|
    ensures InFrame(code, Run(code, s, bytes[..k + 2]), s, bytes[1], n, bytes[2..k + 2])
    ensures Reports(code, s, bytes[..k + 2]) == Quiets(k + 2)
  {
    if k == 0 {
      FrameOpens(code, s, bytes);
      assert bytes[2..2] == [];
    } else {
      PayloadRun(code, s, bytes, n, k - 1);
      PayloadNext(code, s, bytes, n, k - 1);
      assert Quiets(k + 1) + [Quiet] == Quiets(k + 2);
    }
  }

  // The bytes after the payload, one by one, after the first k bytes of a stream.
  lemma {:induction false} LowByteTaken<C>(code: Code<C>, s: View<C>, bytes: seq<u8>, k: nat)
    requires Inv(s) && k < |bytes| && Run(code, s, bytes[..k]).phase == CrcLo
    ensures Run(code, s, bytes[..k + 1]) ==
            Run(code, s, bytes[..k]).(phase := CrcHi, received := code.low(bytes[k]))
    ensures Reports(code, s, bytes[..k + 1]) == Reports(code, s, bytes[..k]) + [Quiet]
  {
    RunNext(code, s, bytes, k);
  }

  lemma {:induction false} HighByteTaken<C>(code: Code<C>, s: View<C>, bytes: seq<u8>, k: nat)
    requires Inv(s) && k < |bytes| && Run(code, s, bytes[..k]).phase == CrcHi
    ensures var t := Run(code, s, bytes[..k]);
            var word := code.join(t.received, bytes[k]);
            && Run(code, s, bytes[..k + 1]) ==
               (if word == t.computed then t.(received := word, phase := Etx)
                else t.(received := word, phase := Idle, stats := t.stats.(errCrc := Bump(t.stats.errCrc))))
            && Reports(code, s, bytes[..k + 1]) ==
               Reports(code, s, bytes[..k]) + [if word == t.computed then Quiet else BadCrc]
  {
    RunNext(code, s, bytes, k);
  }

  lemma {:induction false} EndByteTaken<C>(code: Code<C>, s: View<C>, bytes: seq<u8>, k: nat)
    requires Inv(s) && k < |bytes| && Run(code, s, bytes[..k]).phase == Etx
    ensures var t := Run(code, s, bytes[..k]);
            && Run(code, s, bytes[..k + 1]) ==
               (if bytes[k] == ETX then t.(phase := Idle, stats := t.stats.(framesOk := Bump(t.stats.framesOk)))
                else t.(phase := Idle, stats := t.stats.(errFraming := Bump(t.stats.errFraming))))
            && Reports(code, s, bytes[..k + 1]) ==
               Reports(code, s, bytes[..k]) + [if bytes[k] == ETX then Complete(t.payload[..t.length]) else BadFraming]
  {
    RunNext(code, s, bytes, k);
  }

  // The parts of a stream that opens a frame and carries its whole payload p.
  ghost predicate Carries(bytes: seq<u8>, n: nat, p: seq<u8>) {
    Opens(bytes) && n == bytes[1] && n + 2 <= |bytes| && p == bytes[2..n + 2]
  }

  ghost predicate PayloadHeld<C>(t: View<C>, p: seq<u8>) {
    Inv(t) && t.length == |p| && t.payload[..|p|] == p
  }

  lemma {:induction false} PayloadTaken<C>(code: Code<C>, s: View<C>, bytes: seq<u8>, n: nat, p: seq<u8>)
    requires Inv(s) && s.phase == Idle && Carries(bytes, n, p)
    ensures var t := Run(code, s, bytes[..n + 2]);
            && PayloadHeld(t, p) && t.phase == CrcLo && t.stats == s.stats
            && t.computed == FrameCrc(code, bytes[1], p)
            && Reports(code, s, bytes[..n + 2]) == Quiets(n + 2)
  {
    PayloadRun(code, s, bytes, n, n);
  }

  lemma {:induction false} CrcLowRun<C>(code: Code<C>, s: View<C>, bytes: seq<u8>, n: nat, p: seq<u8>)
    requires Inv(s) && s.phase == Idle && Carries(bytes, n, p) && |bytes| >= n + 3
    ensures var t := Run(code, s, bytes[..n + 3]);
            && PayloadHeld(t, p) && t.phase == CrcHi && t.stats == s.stats
            && t.computed == FrameCrc(code, bytes[1], p) && t.received == code.low(bytes[n + 2])
            && Reports(code, s, bytes[..n + 3]) == Quiets(n + 3)
  {
    PayloadTaken(code, s, bytes, n, p);
    LowByteTaken(code, s, bytes, n + 2);
    assert Quiets(n + 2) + [Quiet] == Quiets(n + 3);
  }

  // After the two checksum bytes.
  lemma {:induction false} CrcRun<C>(code: Code<C>, s: View<C>, bytes: seq<u8>, n: nat, p: seq<u8>)
    requires Inv(s) && s.phase == Idle && Carries(bytes, n, p) && |bytes| >= n + 4
    ensures var t := Run(code, s, bytes[..n + 4]);
            var right := Word(code, bytes[n + 2], bytes[n + 3]) == FrameCrc(code, bytes[1], p);
            && PayloadHeld(t, p)
            && (if right then t.phase == Etx && t.stats == s.stats
                else t.phase == Idle && t.stats == s.stats.(errCrc := Bump(s.stats.errCrc)))
            && Reports(code, s, bytes[..n + 4]) == Quiets(n + 3) + [if right then Quiet else BadCrc]
  {
    CrcLowRun(code, s, bytes, n, p);
    HighByteTaken(code, s, bytes, n + 3);
  }

  // A whole frame, right or wrong in its end byte.
  lemma {:induction false} FrameRun<C>(code: Code<C>, s: View<C>, bytes: seq<u8>, n: nat, p: seq<u8>)
    requires Inv(s) && s.phase == Idle && Carries(bytes, n, p) && |bytes| >= n + 5
    requires Word(code, bytes[n + 2], bytes[n + 3]) == FrameCrc(code, bytes[1], p)
    ensures var t := Run(code, s, bytes[..n + 5]);
            && t.phase == Idle
            && t.stats == (if bytes[n + 4] == ETX then s.stats.(framesOk := Bump(s.stats.framesOk))
                           else s.stats.(errFraming := Bump(s.stats.errFraming)))
            && Reports(code, s, bytes[..n + 5]) ==
               Quiets(n + 4) + [if bytes[n + 4] == ETX then Complete(p) else BadFraming]
  {
    var t := Run(code, s, bytes[..n + 4]);
    CrcRun(code, s, bytes, n, p);
    assert t.payload[..t.length] == p;
    assert Reports(code, s, bytes[..n + 4]) == Quiets(n + 4) by {
      assert Quiets(n + 3) + [Quiet] == Quiets(n + 4);
    }
    EndByteTaken(code, s, bytes, n + 4);
  }

  // ------------------------------------------------------------- refinement

  lemma {:induction false} SkipByte<C>(code: Code<C>, s: View<C>, b: u8)
    requires Inv(s) && s.phase == Idle && b != STX
    ensures Run(code, s, [b]) == s.(stats := s.stats.(discarded := Bump(s.stats.discarded)))
    ensures Reports(code, s, [b]) == [Quiet]
  {
    RunOne(code, s, b);
  }

  lemma {:induction false} LongLength<C>(code: Code<C>, s: View<C>, bytes: seq<u8>)
    requires Inv(s) && s.phase == Idle
    requires |bytes| >= 2 && bytes[0] == STX && bytes[1] > MAX_PAYLOAD
    ensures var t := Run(code, s, bytes[..2]);
            t.phase == Idle && t.stats == s.stats.(errLength := Bump(s.stats.errLength))
    ensures Reports(code, s, bytes[..2]) == [Quiet, BadLength]
  {
    assert bytes[..0] == [];
    RunNext(code, s, bytes, 0);
    RunNext(code, s, bytes, 1);
  }

  /** On every stream the parser, starting idle, reports what the grammar says, payloads
      included. */
  lemma {:induction false} ParserRefinesScan<C>(code: Code<C>, s: View<C>, bytes: seq<u8>)
    requires Inv(s) && s.phase == Idle
    ensures Reports(code, s, bytes) == Scan(code, bytes)
    decreases |bytes|, 3
  {
    if |bytes| == 0 {
    } else if bytes[0] != STX {
      SkipByte(code, s, bytes[0]);
      assert bytes[..1] == [bytes[0]];
      ThenScan(code, s, bytes, 1);
    } else if |bytes| == 1 {
      RunOne(code, s, STX);
      assert bytes == [STX];
    } else if bytes[1] > MAX_PAYLOAD {
      LongLength(code, s, bytes);
      ThenScan(code, s, bytes, 2);
    } else {
      FrameRefines(code, s, bytes, bytes[1]);
    }
  }

  // Once the parser is idle after k bytes, the rest follows the grammar.
  lemma {:induction false} ThenScan<C>(code: Code<C>, s: View<C>, bytes: seq<u8>, k: nat)
    requires Inv(s) && 0 < k <= |bytes| && Run(code, s, bytes[..k]).phase == Idle
    ensures Reports(code, s, bytes) == Reports(code, s, bytes[..k]) + Scan(code, bytes[k..])
    decreases |bytes|, 0
  {
    assert bytes == bytes[..k] + bytes[k..];
    RunConcat(code, s, bytes[..k], bytes[k..]);
    ParserRefinesScan(code, Run(code, s, bytes[..k]), bytes[k..]);
  }

  lemma {:induction false} RejectedRefines<C>(code: Code<C>, s: View<C>, bytes: seq<u8>, n: nat, p: seq<u8>)
    requires Inv(s) && s.phase == Idle && Carries(bytes, n, p) && |bytes| >= n + 4
    requires Word(code, bytes[n + 2], bytes[n + 3]) != FrameCrc(code, bytes[1], p)
    ensures Reports(code, s, bytes) == Quiets(n + 3) + [BadCrc] + Scan(code, bytes[n + 4..])
    decreases |bytes|, 1
  {
    CrcRun(code, s, bytes, n, p);
    ThenScan(code, s, bytes, n + 4);
  }

  lemma {:induction false} EndlessRefines<C>(code: Code<C>, s: View<C>, bytes: seq<u8>, n: nat, p: seq<u8>)
    requires Inv(s) && s.phase == Idle && Carries(bytes, n, p) && |bytes| == n + 4
    requires Word(code, bytes[n + 2], bytes[n + 3]) == FrameCrc(code, bytes[1], p)
    ensures Reports(code, s, bytes) == Quiets(n + 4)
  {
    CrcRun(code, s, bytes, n, p);
    assert bytes[..n + 4] == bytes;
    assert Quiets(n + 3) + [Quiet] == Quiets(n + 4);
  }

  lemma {:induction false} WholeRefines<C>(code: Code<C>, s: View<C>, bytes: seq<u8>, n: nat, p: seq<u8>)
    requires Inv(s) && s.phase == Idle && Carries(bytes, n, p) && |bytes| >= n + 5
    requires Word(code, bytes[n + 2], bytes[n + 3]) == FrameCrc(code, bytes[1], p)
    ensures Reports(code, s, bytes) ==
            Quiets(n + 4) + [if bytes[n + 4] == ETX then Complete(p) else BadFraming] + Scan(code, bytes[n + 5..])
    decreases |bytes|, 1
  {
    FrameRun(code, s, bytes, n, p);
    ThenScan(code, s, bytes, n + 5);
  }

  lemma {:induction false} FrameRefines<C>(code: Code<C>, s: View<C>, bytes: seq<u8>, n: nat)
    requires Inv(s) && s.phase == Idle && Opens(bytes) && n == bytes[1]
    ensures Reports(code, s, bytes) == ScanFrame(code, bytes, n)
    decreases |bytes|, 2
  {
    if |bytes| < n + 4 {
      TruncatedRefines(code, s, bytes, n);
    } else if Word(code, bytes[n + 2], bytes[n + 3]) != FrameCrc(code, bytes[1], bytes[2..n + 2]) {
      RejectedRefines(code, s, bytes, n, bytes[2..n + 2]);
    } else if |bytes| == n + 4 {
      EndlessRefines(code, s, bytes, n, bytes[2..n + 2]);
    } else {
      WholeRefines(code, s, bytes, n, bytes[2..n + 2]);
    }
  }

  lemma {:induction false} TruncatedRefines<C>(code: Code<C>, s: View<C>, bytes: seq<u8>, n: nat)
    requires Inv(s) && s.phase == Idle && Opens(bytes) && n == bytes[1] && |bytes| < n + 4
    ensures Reports(code, s, bytes) == Quiets(|bytes|)
  {
    if |bytes| <= n + 2 {
      PayloadRun(code, s, bytes, n, |bytes| - 2);
    } else {
      CrcLowRun(code, s, bytes, n, bytes[2..n + 2]);
    }
    assert bytes[..|bytes|] == bytes;
  }
}
