/** The stream theorems for the parser with its own checksum. */
module FrameProtocol {
  import opened Words
  import opened FrameParser
  import opened FrameStream
  import opened FrameRoundTrip
  import FrameAccounts
  import opened Crc
  import D = CrcDetection
  import FrameDamage

  // ------------------------------------------------------------- the frame in numbers

  function LowFirst(lo: u8, hi: u8): bv16 { (lo as byte as bv16) | ((hi as byte as bv16) << 8) }

  lemma {:induction false} WordInNumbers(lo: u8, hi: u8)
    ensures Word(CCITT_CODE, lo, hi) == LowFirst(lo, hi)
  {
  }

  lemma {:induction false} FrameCrcInNumbers(f: seq<u8>, p: seq<u8>)
    requires |f| == |p| + 5 && |p| < 0x100 && f[1] == |p| && f[2..|p| + 2] == p
    ensures FrameCrc(CCITT_CODE, |p|, p) == Fold(0xFFFF, FrameDamage.Octets(f[1..|p| + 2]))
  {
    assert f[1..|p| + 2] == [f[1]] + p;
    FrameDamage.FoldedIsFold(INIT, [|p|] + p);
  }

  /** The bytes of a frame: 02, a length of at most 64, as many bytes of payload, the CRC of length and
      payload started from 0xFFFF with its low byte first, and 03. */
  lemma {:induction false} FrameInNumbers(f: seq<u8>, p: seq<u8>)
    ensures IsFrame(CCITT_CODE, f, p) <==>
            && |p| <= 64 && |f| == |p| + 5
            && f[0] == 0x02 && f[1] == |p| && f[2..|p| + 2] == p && f[|p| + 4] == 0x03
            && LowFirst(f[|p| + 2], f[|p| + 3]) == Fold(0xFFFF, FrameDamage.Octets(f[1..|p| + 2]))
  {
    if |p| <= 64 && |f| == |p| + 5 && f[1] == |p| && f[2..|p| + 2] == p {
      ChecksumInNumbers(f, p, f[|p| + 2], f[|p| + 3]);
    }
  }

  lemma {:induction false} ChecksumInNumbers(f: seq<u8>, p: seq<u8>, lo: u8, hi: u8)
    requires |f| == |p| + 5 && |p| < 0x100 && f[1] == |p| && f[2..|p| + 2] == p
    ensures Word(CCITT_CODE, lo, hi) == FrameCrc(CCITT_CODE, |p|, p) <==>
            LowFirst(lo, hi) == Fold(0xFFFF, FrameDamage.Octets(f[1..|p| + 2]))
  {
    WordInNumbers(lo, hi);
    FrameCrcInNumbers(f, p);
  }

  // What the sender sends is a frame.
  lemma {:induction false} EncodedIsFrame(p: seq<u8>)
    requires |p| <= MAX_PAYLOAD
    ensures IsFrame(CCITT_CODE, Encode(CCITT_CODE, p), p)
  {
    FrameDamage.CcittSplits();
    EncodeParts(CCITT_CODE, p);
    assert Encode(CCITT_CODE, p)[2..|p| + 2] == p;
  }

  /** After a reset, in whatever state, the parser is idle, its counters are as they were, and the next
      good frame is received at once. */
  lemma {:induction false} ResetRestores(s: View<bv16>, p: seq<u8>)
    requires Inv(s) && |p| <= MAX_PAYLOAD
    ensures Inv(Reset(s)) && Reset(s).phase == Idle && Reset(s).stats == s.stats
    ensures Reports(CCITT_CODE, Reset(s), Encode(CCITT_CODE, p)) == Quiets(|p| + 4) + [Complete(p)]
  {
    FrameDamage.CcittSplits();
    EncodedRuns(CCITT_CODE, Reset(s), p);
  }

  // ------------------------------------------------------------- streams

  /** Encoded frames with any noise free of start bytes before, between and after them come out
      as exactly their payloads, in order, one report each at the frame's last byte and nothing
      else, the counters grown by the frames and by the noise. */
  lemma {:induction false} FramesSurviveNoise(s: View<bv16>, items: seq<Item>, noise: seq<u8>)
    requires Inv(s) && s.phase == Idle && Sendable(items) && STX !in noise
    ensures Takes(CCITT_CODE, s, Stream(CCITT_CODE, items) + noise,
                  Received(s.stats, |items|, NoiseLength(items) + |noise|), Expected(items) + Quiets(|noise|))
  {
    FrameDamage.CcittSplits();
    StreamThenNoise(CCITT_CODE, s, items, noise);
  }

  /** On any stream whatever, a payload is reported only at the last byte of a frame that carries
      it: start byte, its length, its bytes, the checksum of both and the end byte. */
  lemma {:induction false} OnlyFramesAreReported(s: View<bv16>, bytes: seq<u8>, i: nat, p: seq<u8>)
    requires Inv(s) && s.phase == Idle && i < |bytes| && Reports(CCITT_CODE, s, bytes)[i] == Complete(p)
    ensures FrameEnds(CCITT_CODE, bytes, i, p)
  {
    ParserRefinesScan(CCITT_CODE, s, bytes);
    CompleteIsFrame(CCITT_CODE, bytes, i, p);
  }

  /** From any state the parser can be in, 68 bytes without a start byte make it idle, and the
      next good frame is received. */
  lemma {:induction false} GapRestores(s: View<bv16>, gap: seq<u8>, p: seq<u8>)
    requires Inv(s) && STX !in gap && |gap| >= 68 && |p| <= MAX_PAYLOAD
    ensures var t := Run(CCITT_CODE, s, gap);
            t.phase == Idle && Reports(CCITT_CODE, t, Encode(CCITT_CODE, p)) == Quiets(|p| + 4) + [Complete(p)]
  {
    FrameDamage.CcittSplits();
    GapResynchronises(CCITT_CODE, s, gap, p);
  }

  // The longest frame without its start and end bytes: a payload that empties the register, so
  // that its checksum is zero.
  const EMPTYING: seq<u8> := [0xA9, 0x34] + seq(62, _ => 0)

  const LONG_GAP: seq<u8> := [MAX_PAYLOAD] + EMPTYING + [0, 0]

  lemma {:induction false} AfterSixtyFour()
    ensures FrameDamage.AfterLength(64) == 0xA934
  {
    D.UpdateByTurns(0xFFFF, 0x40, 0xA934);
    assert FrameDamage.Octets([64]) == [0x40];
    FoldSnoc(INIT, [], 0x40);
    assert [] + [0x40 as byte] == [0x40];
  }

  lemma {:induction false} ZerosKeepZero(n: nat)
    ensures Fold(0, FrameDamage.Octets(seq(n, _ => 0))) == 0
  {
    if n > 0 {
      ZerosKeepZero(n - 1);
      var zeros, more := seq(n - 1, _ => 0), seq(n, _ => 0);
      assert more == zeros + [0];
      FrameDamage.OctetsSnoc(zeros, 0);
      FoldSnoc(0, FrameDamage.Octets(zeros), 0);
      D.UpdateByTurns(0, 0, 0);
    }
  }

  lemma {:induction false} EmptyingEmpties()
    ensures FrameCrc(CCITT_CODE, 64, EMPTYING) == 0
  {
    FrameDamage.FrameCrcIsFold(64, EMPTYING);
    AfterSixtyFour();
    var head, zeros := [0xA9, 0x34], seq(62, _ => 0);
    FrameDamage.OctetsConcat(head, zeros);
    FoldConcat(0xA934, FrameDamage.Octets(head), FrameDamage.Octets(zeros));
    HeadEmpties();
    ZerosKeepZero(62);
  }

  lemma {:induction false} HeadEmpties()
    ensures Fold(0xA934, FrameDamage.Octets([0xA9, 0x34])) == 0
  {
    var two: seq<byte> := [0xA9, 0x34];
    assert FrameDamage.Octets([0xA9, 0x34]) == two;
    assert two == [0xA9] + [0x34] && [0xA9 as byte] == [] + [0xA9];
    FoldSnoc(0xA934, [0xA9], 0x34);
    FoldSnoc(0xA934, [], 0xA9);
    D.UpdateByTurns(0xA934, 0xA9, 0x3400);
    D.UpdateByTurns(0x3400, 0x34, 0);
  }

  /** 67 bytes without a start byte are not enough: these leave a parser that had just seen a start
      byte waiting for an end byte. */
  lemma {:induction false} ShorterGapIsNotEnough(s: View<bv16>)
    requires Inv(s) && s.phase == Idle
    ensures |LONG_GAP| == 67 && STX !in LONG_GAP
    ensures Run(CCITT_CODE, s, [STX] + LONG_GAP).phase == Etx
  {
    var bytes := [STX] + LONG_GAP;
    assert bytes[2..66] == EMPTYING;
    EmptyingEmpties();
    CrcRun(CCITT_CODE, s, bytes, 64, EMPTYING);
    assert bytes[..68] == bytes;
  }

  lemma {:induction false} WrapsAdd(a: nat, b: nat, c: nat, d: nat, e: nat)
    ensures Wrap32(Wrap32(a) + Wrap32(b) + Wrap32(c) + Wrap32(d) + e) == Wrap32(a + b + c + d + e)
  {
    WrapSum(a, Wrap32(b) + Wrap32(c) + Wrap32(d) + e);
    WrapSum(b, a + Wrap32(c) + Wrap32(d) + e);
    WrapSum(c, a + b + Wrap32(d) + e);
    WrapSum(d, a + b + c + e);
  }

  lemma {:induction false} CountedSum(y: FrameAccounts.Tally, e: nat)
    ensures var st := FrameAccounts.Counted(Zeroed().stats, y);
            Wrap32(st.framesOk + st.errLength + st.errCrc + st.errFraming + e) ==
            Wrap32(y.ok + y.badLength + y.badCrc + y.badFraming + e)
  {
    WrapsAdd(y.ok, y.badLength, y.badCrc, y.badFraming, e);
  }

  ghost predicate Agree(t: View<bv16>, n: nat, y: FrameAccounts.Tally)
    requires Inv(t)
  {
    && Wrap32(t.stats.framesOk + t.stats.errLength + t.stats.errCrc + t.stats.errFraming
              + FrameAccounts.One(t.phase != Idle)) == Wrap32(y.starts)
    && n == y.skipped + y.framed + FrameAccounts.InProgress(t)
    && t.stats.discarded == Wrap32(y.skipped)
  }

  lemma {:induction false} BalancedAgree(t: View<bv16>, n: nat, y: FrameAccounts.Tally)
    requires Inv(t) && FrameAccounts.Balanced(Zeroed(), t, n, y)
    ensures Agree(t, n, y)
  {
    CountedSum(y, FrameAccounts.One(t.phase != Idle));
  }

  /** From zeroed counters, on any stream: modulo 2^32, the start bytes taken are the frames
      received, the three kinds of rejected frames and the one in progress. */
  lemma {:induction false} CountersAgree(bytes: seq<u8>)
    ensures Agree(Run(CCITT_CODE, Zeroed(), bytes), |bytes|, FrameAccounts.TallyOf(CCITT_CODE, Zeroed(), bytes))
  {
    FrameAccounts.EveryByteIsCountedOnce(CCITT_CODE, Zeroed(), bytes);
    BalancedAgree(Run(CCITT_CODE, Zeroed(), bytes), |bytes|, FrameAccounts.TallyOf(CCITT_CODE, Zeroed(), bytes));
  }
}
