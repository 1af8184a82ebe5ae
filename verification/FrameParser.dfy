/** The framed-protocol parser: one byte in, one event out. */
module FrameParser {
  import opened Words
  import opened Crc

  const STX: u8 := 0x02
  const ETX: u8 := 0x03
  const MAX_PAYLOAD := 64

  datatype Phase = Idle | Len | Payload | CrcLo | CrcHi | Etx

  datatype Event = EvNone | EvComplete | EvErrLength | EvErrCrc | EvErrFraming

  datatype Stats = Stats(framesOk: u32, errLength: u32, errCrc: u32, errFraming: u32, discarded: u32)

  // What parser and sender use of a checksum: its start value, a step for each byte, how the
  // two received bytes make a value of it, low byte first, and how a value is split into the
  // two. What holds of streams does not depend on which checksum it is.
  datatype Code<!C> = Code(
    init: C,
    update: (C, u8) -> C,
    low: u8 -> C,
    join: (C, u8) -> C,
    lowByte: C -> u8,
    highByte: C -> u8)

  // The parser's fields as a value.
  datatype View<C> = View(
    phase: Phase,
    payload: seq<u8>,
    length: u8,
    index: u8,
    received: C,
    computed: C,
    stats: Stats)

  // What holds between any two bytes; `length` and `index` never exceed the buffer.
  ghost predicate Inv<C>(s: View<C>) {
    && |s.payload| == MAX_PAYLOAD
    && s.index <= s.length <= MAX_PAYLOAD
    && (s.phase == Len ==> s.length == 0)
    && (s.phase == Payload ==> s.index < s.length)
    && (s.phase in {CrcLo, CrcHi, Etx} ==> s.index == s.length)
  }

  function Bump(n: u32): u32 { Wrap32(n + 1) }

  lemma {:induction false} BumpMore(n: u32, k: nat)
    ensures Bump(Wrap32(n + k)) == Wrap32(n + (k + 1))
  {
    WrapSum(n + k, 1);
  }

  function IdleStep<C>(code: Code<C>, s: View<C>, b: u8): (View<C>, Event) {
    if b == STX then (s.(length := 0, index := 0, computed := code.init, phase := Len), EvNone)
    else (s.(stats := s.stats.(discarded := Bump(s.stats.discarded))), EvNone)
  }

  function LenStep<C>(code: Code<C>, s: View<C>, b: u8): (View<C>, Event) {
    if b > MAX_PAYLOAD then
      (s.(stats := s.stats.(errLength := Bump(s.stats.errLength)), phase := Idle), EvErrLength)
    else
      (s.(length := b, computed := code.update(s.computed, b), phase := if b == 0 then CrcLo else Payload),
       EvNone)
  }

  function PayloadStep<C>(code: Code<C>, s: View<C>, b: u8): (View<C>, Event)
    requires Inv(s) && s.phase == Payload
  {
    (s.(payload := s.payload[s.index := b], index := s.index + 1, computed := code.update(s.computed, b),
        phase := if s.index + 1 >= s.length then CrcLo else Payload),
     EvNone)
  }

  function CrcHiStep<C(==)>(code: Code<C>, s: View<C>, b: u8): (View<C>, Event) {
    var word := code.join(s.received, b);
    if word != s.computed then
      (s.(received := word, stats := s.stats.(errCrc := Bump(s.stats.errCrc)), phase := Idle), EvErrCrc)
    else (s.(received := word, phase := Etx), EvNone)
  }

  function EtxStep<C>(s: View<C>, b: u8): (View<C>, Event) {
    if b != ETX then
      (s.(stats := s.stats.(errFraming := Bump(s.stats.errFraming)), phase := Idle), EvErrFraming)
    else (s.(stats := s.stats.(framesOk := Bump(s.stats.framesOk)), phase := Idle), EvComplete)
  }

  function Step<C(==)>(code: Code<C>, s: View<C>, b: u8): (View<C>, Event)
    requires Inv(s)
  {
    match s.phase
    case Idle => IdleStep(code, s, b)
    case Len => LenStep(code, s, b)
    case Payload => PayloadStep(code, s, b)
    case CrcLo => (s.(received := code.low(b), phase := CrcHi), EvNone)
    case CrcHi => CrcHiStep(code, s, b)
    case Etx => EtxStep(s, b)
  }

  // No byte breaks the bounds on length and index.
  lemma {:induction false} StepKeepsInv<C>(code: Code<C>, s: View<C>, b: u8)
    requires Inv(s)
    ensures Inv(Step(code, s, b).0)
  {
  }

  // The checksum of the source, over bytes as numbers: `crc_received = byte`, then
  // `|= byte << 8`; the sender's bytes are `crc & 0xFF` and `crc >> 8`.
  function UpdateWith(crc: bv16, b: u8): bv16 { Update(crc, b as byte) }

  function LowWord(b: u8): bv16 { b as byte as bv16 }

  function JoinHigh(word: bv16, b: u8): bv16 { word | High(b as byte) }

  function LowByte(crc: bv16): u8 { (crc & 0xFF) as byte as int }

  function HighByte(crc: bv16): u8 { (crc >> 8) as byte as int }

  const CCITT_CODE: Code<bv16> := Code(INIT, UpdateWith, LowWord, JoinHigh, LowByte, HighByte)

  // A parser whose memory was zeroed.
  function Zeroed(): View<bv16> {
    View(Idle, seq(MAX_PAYLOAD, _ => 0), 0, 0, 0, 0, Stats(0, 0, 0, 0, 0))
  }

  // frame_reset: gives up the frame in progress; the counters go on.
  function Reset(s: View<bv16>): View<bv16> {
    s.(phase := Idle, length := 0, index := 0, received := 0, computed := INIT)
  }

  class Parser {
    var state: Phase
    const payload: array<u8>
    var length: u8
    var index: u8
    var crcReceived: bv16
    var crcComputed: bv16
    var stats: Stats

    ghost function Abstract(): View<bv16>
      reads this, payload
    {
      View(state, payload[..], length, index, crcReceived, crcComputed, stats)
    }

    ghost predicate Valid()
      reads this, payload
    {
      Inv(Abstract())
    }

    constructor ()
      ensures Valid() && fresh(payload) && Abstract() == Zeroed()
    {
      state := Idle;
      payload := new u8[MAX_PAYLOAD](_ => 0);
      length, index, crcReceived, crcComputed := 0, 0, 0, 0;
      stats := Stats(0, 0, 0, 0, 0);
      new;
      assert payload[..] == seq(MAX_PAYLOAD, _ => 0);
    }

    method ResetFrame()
      requires Valid()
      modifies this
      ensures Valid() && Abstract() == Reset(old(Abstract()))
      ensures state == Idle && stats == old(stats)
    {
      state := Idle;
      length, index := 0, 0;
      crcReceived, crcComputed := 0, INIT;
    }

    /** Takes one byte. */
    method Feed(b: u8) returns (ev: Event)
      requires Valid()
      modifies this, payload
      ensures Valid() && (Abstract(), ev) == Step(CCITT_CODE, old(Abstract()), b)
    {
      StepKeepsInv(CCITT_CODE, Abstract(), b);
      match state {
        case Idle => ev := FeedIdle(b);
        case Len => ev := FeedLen(b);
        case Payload => ev := FeedPayload(b);
        case CrcLo =>
          crcReceived := b as byte as bv16;
          state := CrcHi;
          ev := EvNone;
        case CrcHi => ev := FeedCrcHi(b);
        case Etx => ev := FeedEtx(b);
      }
    }

    method FeedIdle(b: u8) returns (ev: Event)
      modifies this
      ensures (Abstract(), ev) == IdleStep(CCITT_CODE, old(Abstract()), b)
    {
      if b == STX {
        length := 0;
        index := 0;
        crcComputed := INIT;
        state := Len;
      } else {
        stats := stats.(discarded := Bump(stats.discarded));
      }
      return EvNone;
    }

    method FeedLen(b: u8) returns (ev: Event)
      modifies this
      ensures (Abstract(), ev) == LenStep(CCITT_CODE, old(Abstract()), b)
    {
      if b > MAX_PAYLOAD {
        stats := stats.(errLength := Bump(stats.errLength));
        state := Idle;
        return EvErrLength;
      }
      length := b;
      crcComputed := UpdateLoop(crcComputed, b as byte);
      state := if b == 0 then CrcLo else Payload;
      return EvNone;
    }

    method FeedPayload(b: u8) returns (ev: Event)
      requires Valid() && state == Payload
      modifies this, payload
      ensures (Abstract(), ev) == PayloadStep(CCITT_CODE, old(Abstract()), b)
    {
      payload[index] := b;
      index := index + 1;
      crcComputed := UpdateLoop(crcComputed, b as byte);
      if index >= length {
        state := CrcLo;
      }
      return EvNone;
    }

    method FeedCrcHi(b: u8) returns (ev: Event)
      modifies this
      ensures (Abstract(), ev) == CrcHiStep(CCITT_CODE, old(Abstract()), b)
    {
      crcReceived := crcReceived | High(b as byte);
      if crcReceived != crcComputed {
        stats := stats.(errCrc := Bump(stats.errCrc));
        state := Idle;
        return EvErrCrc;
      }
      state := Etx;
      return EvNone;
    }

    method FeedEtx(b: u8) returns (ev: Event)
      modifies this
      ensures (Abstract(), ev) == EtxStep(old(Abstract()), b)
    {
      state := Idle;
      if b != ETX {
        stats := stats.(errFraming := Bump(stats.errFraming));
        return EvErrFraming;
      }
      stats := stats.(framesOk := Bump(stats.framesOk));
      return EvComplete;
    }
  }
}
