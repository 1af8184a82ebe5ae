/** The sender of the framed protocol and the counter arithmetic of its example. */
module FrameSelfTest {
  import opened Words
  import L = LinearRegister
  import opened Crc
  import D = CrcDetection
  import opened FrameParser
  import opened FrameStream
  import opened FrameDamage

  // The sender's checksum of the length and the payload.
  method CrcOf(payload: seq<u8>, len: u8) returns (crc: bv16)
    requires len <= |payload|
    ensures crc == FrameCrc(CCITT_CODE, len, payload[..len])
  {
    crc := UpdateLoop(INIT, len as byte);
    FoldOne(CCITT_CODE, INIT, len);
    for i := 0 to len
      invariant crc == FrameCrc(CCITT_CODE, len, payload[..i])
    {
      crc := UpdateLoop(crc, payload[i] as byte);
      assert [len] + payload[..i + 1] == ([len] + payload[..i]) + [payload[i]];
      FoldMore(CCITT_CODE, INIT, [len] + payload[..i], payload[i]);
    }
  }

  // Passes a byte to the parser; what is reported includes the payload of a complete frame.
  method Handle(parser: Parser, b: u8) returns (r: Report)
    requires parser.Valid()
    modifies parser, parser.payload
    ensures parser.Valid() && parser.Abstract() == Step(CCITT_CODE, old(parser.Abstract()), b).0
    ensures r == ReportAt(CCITT_CODE, old(parser.Abstract()), b)
  {
    var ev := parser.Feed(b);
    match ev {
      case EvNone => r := Quiet;
      case EvComplete => r := Complete(parser.payload[..parser.length]);
      case EvErrLength => r := BadLength;
      case EvErrCrc => r := BadCrc;
      case EvErrFraming => r := BadFraming;
    }
  }

  // One bit of the first payload byte flipped.
  function FlipFirst(p: seq<u8>): (q: seq<u8>)
    ensures |q| == |p|
  {
    if |p| == 0 then [] else [Flip(p[0], 1)] + p[1..]
  }

  // A corrupt frame differs in the lowest bit of its first payload byte.
  lemma {:induction false} LowestBitFlipped(p: seq<u8>)
    requires p != []
    ensures FlipFirst(p)[0] as byte == p[0] as byte ^ 0x01 && FlipFirst(p)[1..] == p[1..]
  {
    FlipIs(p[0], 1);
  }

  // The bytes of an injected frame.
  function Injected(p: seq<u8>, corrupt: bool): seq<u8>
    requires |p| < 0x100
  {
    var crc := FrameCrc(CCITT_CODE, |p|, p);
    Arrived(|p|, if corrupt then FlipFirst(p) else p, LowByte(crc), HighByte(crc))
  }

  lemma {:induction false} InjectedParts(p: seq<u8>, corrupt: bool)
    requires |p| < 0x100
    ensures var w, crc := Injected(p, corrupt), FrameCrc(CCITT_CODE, |p|, p);
            && |w| == |p| + 5 && w[0] == STX && w[1] == |p|
            && (forall i | 0 <= i < |p| :: w[i + 2] == if corrupt && i == 0 then Flip(p[i], 1) else p[i])
            && w[|p| + 2] == LowByte(crc) && w[|p| + 3] == HighByte(crc) && w[|p| + 4] == ETX
  {
  }

  // The parser and its reports have followed the first k bytes since a state.
  ghost predicate Followed(s: View<bv16>, bytes: seq<u8>, k: nat, t: View<bv16>, rs: seq<Report>) {
    && Inv(s) && k <= |bytes|
    && t == Run(CCITT_CODE, s, bytes[..k]) && rs == Reports(CCITT_CODE, s, bytes[..k])
  }

  // Passes the next byte on and keeps the record of what was reported.
  method Send(parser: Parser, b: u8, rs: seq<Report>, ghost s: View<bv16>, ghost bytes: seq<u8>, ghost k: nat)
    returns (ss: seq<Report>)
    requires parser.Valid() && Followed(s, bytes, k, parser.Abstract(), rs) && k < |bytes| && b == bytes[k]
    modifies parser, parser.payload
    ensures parser.Valid() && Followed(s, bytes, k + 1, parser.Abstract(), ss)
  {
    RunNext(CCITT_CODE, s, bytes, k);
    var r := Handle(parser, b);
    ss := rs + [r];
  }

  method SendPayload(parser: Parser, payload: seq<u8>, len: u8, corrupt: bool, sent: seq<Report>,
                     ghost s: View<bv16>, ghost bytes: seq<u8>)
    returns (rs: seq<Report>)
    requires parser.Valid() && len <= |payload| && |bytes| == len + 5
    requires forall i | 0 <= i < len :: bytes[i + 2] == if corrupt && i == 0 then Flip(payload[i], 1) else payload[i]
    requires Followed(s, bytes, 2, parser.Abstract(), sent)
    modifies parser, parser.payload
    ensures parser.Valid() && Followed(s, bytes, len + 2, parser.Abstract(), rs)
  {
    rs := sent;
    for i := 0 to len
      invariant parser.Valid() && Followed(s, bytes, i + 2, parser.Abstract(), rs)
    {
      rs := Send(parser, if corrupt && i == 0 then Flip(payload[i], 1) else payload[i], rs, s, bytes, i + 2);
    }
  }

  method SendFrame(parser: Parser, payload: seq<u8>, len: u8, lo: u8, hi: u8, corrupt: bool,
                   ghost s: View<bv16>, ghost bytes: seq<u8>)
    returns (rs: seq<Report>)
    requires parser.Valid() && parser.Abstract() == s && len <= |payload|
    requires |bytes| == len + 5 && bytes[0] == STX && bytes[1] == len
    requires forall i | 0 <= i < len :: bytes[i + 2] == if corrupt && i == 0 then Flip(payload[i], 1) else payload[i]
    requires bytes[len + 2] == lo && bytes[len + 3] == hi && bytes[len + 4] == ETX
    modifies parser, parser.payload
    ensures parser.Valid() && parser.Abstract() == Run(CCITT_CODE, s, bytes) && rs == Reports(CCITT_CODE, s, bytes)
  {
    assert bytes[..0] == [];
    rs := Send(parser, STX, [], s, bytes, 0);
    rs := Send(parser, len, rs, s, bytes, 1);
    rs := SendPayload(parser, payload, len, corrupt, rs, s, bytes);
    rs := Send(parser, lo, rs, s, bytes, len + 2);
    rs := Send(parser, hi, rs, s, bytes, len + 3);
    rs := Send(parser, ETX, rs, s, bytes, len + 4);
    assert bytes[..len + 5] == bytes;
  }

  /** Sends a frame to the parser byte by byte, flipping a bit when asked to. */
  method InjectFrame(parser: Parser, payload: seq<u8>, len: u8, corrupt: bool) returns (rs: seq<Report>)
    requires parser.Valid() && len <= |payload|
    modifies parser, parser.payload
    ensures parser.Valid()
    ensures parser.Abstract() == Run(CCITT_CODE, old(parser.Abstract()), Injected(payload[..len], corrupt))
    ensures rs == Reports(CCITT_CODE, old(parser.Abstract()), Injected(payload[..len], corrupt))
  {
    InjectedParts(payload[..len], corrupt);
    var crc := CrcOf(payload, len);
    rs := SendFrame(parser, payload, len, LowByte(crc), HighByte(crc), corrupt,
                    parser.Abstract(), Injected(payload[..len], corrupt));
  }

  // ------------------------------------------------------------- what becomes of an injected frame

  lemma {:induction false} ConcatSnoc(a: seq<byte>, front: seq<byte>, last: byte, b: seq<byte>)
    requires |b| > 0 && front == b[..|b| - 1] && last == b[|b| - 1]
    ensures b == front + [last] && a + b == (a + front) + [last]
  {
  }

  lemma {:induction false} BitsConcat(a: seq<byte>, b: seq<byte>)
    ensures D.Bits(a + b) == D.Bits(a) + D.Bits(b)
  {
    if |b| == 0 {
      assert a + b == a;
    } else {
      var front, last := b[..|b| - 1], b[|b| - 1];
      ConcatSnoc(a, front, last, b);
      BitsConcat(a, front);
      BitsSnoc(a + front, last);
      BitsSnoc(front, last);
    }
  }

  lemma {:induction false} BitsOne(b: byte)
    ensures D.Bits([b]) == D.BitsOf(b)
  {
    BitsSnoc([], b);
    assert [] + [b] == [b];
  }

  // Two messages that differ in their first byte only.
  lemma {:induction false} FirstByteIsBurst(x: byte, y: byte, rest: seq<byte>)
    requires x != y
    ensures L.IsBurst(D.Damage([x] + rest, [y] + rest), 0, 8, 16)
  {
    BitsConcat([x], rest);
    BitsConcat([y], rest);
    BitsOne(x);
    BitsOne(y);
    var a, b := D.BitsOf(x) + D.Bits(rest), D.BitsOf(y) + D.Bits(rest);
    assert a[8..] == b[8..];
    if a == b {
      assert a[..8] == D.BitsOf(x) && b[..8] == D.BitsOf(y);
      BitsOfInjective(x, y);
    }
    WindowIsBurst(a, b, 0, 8);
  }

  lemma {:induction false} OneBitChanges(x: byte)
    ensures x ^ 1 != x
  {
  }

  lemma {:induction false} OctetsOne(x: u8)
    ensures Octets([x]) == [x as byte]
  {
  }

  lemma {:induction false} FirstDiffers(x: u8, y: u8, rest: seq<u8>)
    requires x as byte != y as byte
    ensures L.IsBurst(D.Damage(Octets([x] + rest), Octets([y] + rest)), 0, 8, 16)
  {
    OctetsOne(x);
    OctetsOne(y);
    OctetsConcat([x], rest);
    OctetsConcat([y], rest);
    FirstByteIsBurst(x as byte, y as byte, Octets(rest));
  }

  lemma {:induction false} FlipChanges(x: u8)
    ensures Flip(x, 1) as byte != x as byte
  {
    FlipIs(x, 1);
    OneBitChanges(x as byte);
  }

  lemma {:induction false} FlippedFirst(p: seq<u8>)
    requires 0 < |p| <= MAX_PAYLOAD
    ensures L.IsBurst(D.Damage(Octets(p), Octets(FlipFirst(p))), 0, 8, 16)
  {
    FlipChanges(p[0]);
    FirstDiffers(p[0], Flip(p[0], 1), p[1..]);
    assert [p[0]] + p[1..] == p;
  }

  lemma {:induction false} GoodFrameRuns(s: View<bv16>, p: seq<u8>)
    requires Inv(s) && s.phase == Idle && |p| <= MAX_PAYLOAD
    ensures var t := Run(CCITT_CODE, s, Injected(p, false));
            t.phase == Idle && t.stats == s.stats.(framesOk := Bump(s.stats.framesOk))
    ensures Reports(CCITT_CODE, s, Injected(p, false)) == Quiets(|p| + 4) + [Complete(p)]
  {
    CcittSplits();
    ArrivedRuns(s, p, LowByte(Sent(p)), HighByte(Sent(p)));
  }

  // The end byte of the rejected frame is skipped as noise.
  lemma {:induction false} CorruptFrameRuns(s: View<bv16>, p: seq<u8>)
    requires Inv(s) && s.phase == Idle && 0 < |p| <= MAX_PAYLOAD
    ensures var t := Run(CCITT_CODE, s, Injected(p, true));
            && t.phase == Idle
            && t.stats == s.stats.(errCrc := Bump(s.stats.errCrc), discarded := Bump(s.stats.discarded))
    ensures Reports(CCITT_CODE, s, Injected(p, true)) == Quiets(|p| + 3) + [BadCrc] + [Quiet]
  {
    FlippedFirst(p);
    BurstRejected(s, p, FlipFirst(p), 0, 8);
    ArrivedRuns(s, FlipFirst(p), LowByte(Sent(p)), HighByte(Sent(p)));
    var rs := Reports(CCITT_CODE, s, Injected(p, true));
    assert (Quiets(|p| + 3) + [BadCrc] + [Quiet])[|p| + 3] == BadCrc;
  }

  method SendNoise(parser: Parser, b: u8, n: nat)
    requires parser.Valid() && parser.state == Idle && b != STX
    modifies parser, parser.payload
    ensures parser.Valid() && parser.state == Idle
    ensures parser.stats == old(parser.stats).(discarded := Wrap32(old(parser.stats).discarded + n))
  {
    ghost var st := parser.stats;
    for i := 0 to n
      invariant parser.Valid() && parser.state == Idle
      invariant parser.stats == st.(discarded := Wrap32(st.discarded + i))
    {
      var r := Handle(parser, b);
      BumpMore(st.discarded, i);
    }
  }

  method InjectGood(parser: Parser, p: seq<u8>)
    requires parser.Valid() && parser.state == Idle && |p| <= MAX_PAYLOAD
    modifies parser, parser.payload
    ensures parser.Valid() && parser.state == Idle
    ensures parser.stats == old(parser.stats).(framesOk := Bump(old(parser.stats).framesOk))
  {
    GoodFrameRuns(parser.Abstract(), p);
    assert p[..|p|] == p;
    var rs := InjectFrame(parser, p, |p|, false);
  }

  method InjectCorrupt(parser: Parser, p: seq<u8>)
    requires parser.Valid() && parser.state == Idle && 0 < |p| <= MAX_PAYLOAD
    modifies parser, parser.payload
    ensures parser.Valid() && parser.state == Idle
    ensures parser.stats ==
            old(parser.stats).(errCrc := Bump(old(parser.stats).errCrc), discarded := Bump(old(parser.stats).discarded))
  {
    CorruptFrameRuns(parser.Abstract(), p);
    assert p[..|p|] == p;
    var rs := InjectFrame(parser, p, |p|, true);
  }

  method SendTooLong(parser: Parser)
    requires parser.Valid() && parser.state == Idle
    modifies parser, parser.payload
    ensures parser.Valid() && parser.state == Idle
    ensures parser.stats == old(parser.stats).(errLength := Bump(old(parser.stats).errLength))
  {
    var r := Handle(parser, STX);
    r := Handle(parser, MAX_PAYLOAD + 1);
  }

  /** The example's self-test: a good frame, the same with one bit flipped, a start byte with a
      length beyond the buffer, noise, and the good frame again. It ends with 2 frames received,
      1 checksum error, 1 length error, no framing error, and one byte more discarded than the
      noise, for the end byte of the frame rejected early. The source runs it on 4 bytes and
      5 bytes of noise. */
  method SelfTest(good: seq<u8>, noise: u8, n: nat) returns (ok: bool)
    requires 0 < |good| <= MAX_PAYLOAD && noise != STX && n < 0xFFFF_FFFF
    ensures ok
  {
    var parser := new Parser();
    parser.ResetFrame();
    InjectGood(parser, good);
    InjectCorrupt(parser, good);
    SendTooLong(parser);
    SendNoise(parser, noise, n);
    InjectGood(parser, good);
    ok := parser.stats == Stats(2, 1, 1, 0, n + 1);
  }
}
