/** Every byte the parser takes is accounted for, for any checksum: skipped, part of a frame that
    ended, or part of the frame in progress; and every start byte opened a frame that ended in
    one of four ways or is still in progress. */
module FrameAccounts {
  import opened Words
  import opened FrameParser
  import opened FrameStream

  // What went by in a run, in unbounded numbers: start bytes taken when idle, other bytes
  // skipped when idle, bytes of frames that have ended, and the ways in which they ended.
  datatype Tally = Tally(starts: nat, skipped: nat, framed: nat, ok: nat, badLength: nat, badCrc: nat, badFraming: nat)

  function Nothing(): Tally { Tally(0, 0, 0, 0, 0, 0, 0) }

  // The bytes a frame had when it ended in this report, by its own length byte.
  function FrameSize(r: Report, length: nat): nat {
    match r
    case Quiet => 0
    case BadLength => 2
    case BadCrc => length + 4
    case BadFraming => length + 5
    case Complete(_) => length + 5
  }

  function One(b: bool): nat { if b then 1 else 0 }

  function TallyByte<C(==)>(code: Code<C>, t: View<C>, b: u8, y: Tally): Tally
    requires Inv(t)
  {
    var r := ReportAt(code, t, b);
    Tally(
      y.starts + One(t.phase == Idle && b == STX),
      y.skipped + One(t.phase == Idle && b != STX),
      y.framed + FrameSize(r, t.length),
      y.ok + One(r.Complete?),
      y.badLength + One(r == BadLength),
      y.badCrc + One(r == BadCrc),
      y.badFraming + One(r == BadFraming))
  }

  function TallyOf<C(==)>(code: Code<C>, s: View<C>, bytes: seq<u8>): Tally
    requires Inv(s)
  {
    if |bytes| == 0 then Nothing()
    else
      var front := bytes[..|bytes| - 1];
      TallyByte(code, Run(code, s, front), bytes[|bytes| - 1], TallyOf(code, s, front))
  }

  // The bytes taken so far of the frame in progress.
  function InProgress<C>(t: View<C>): nat
    requires Inv(t)
  {
    match t.phase
    case Idle => 0
    case Len => 1
    case Payload => 2 + t.index
    case CrcLo => 2 + t.length
    case CrcHi => 3 + t.length
    case Etx => 4 + t.length
  }

  function Counted(st: Stats, y: Tally): Stats {
    Stats(Wrap32(st.framesOk + y.ok), Wrap32(st.errLength + y.badLength), Wrap32(st.errCrc + y.badCrc),
          Wrap32(st.errFraming + y.badFraming), Wrap32(st.discarded + y.skipped))
  }

  ghost predicate Balanced<C>(s: View<C>, t: View<C>, n: nat, y: Tally)
    requires Inv(t)
  {
    && y.starts == y.ok + y.badLength + y.badCrc + y.badFraming + One(t.phase != Idle)
    && n == y.skipped + y.framed + InProgress(t)
    && t.stats == Counted(s.stats, y)
  }

  // What one byte does to the counters, by what it reports.
  function Bumped(st: Stats, skips: bool, r: Report): Stats {
    match r
    case Quiet => if skips then st.(discarded := Bump(st.discarded)) else st
    case Complete(_) => st.(framesOk := Bump(st.framesOk))
    case BadLength => st.(errLength := Bump(st.errLength))
    case BadCrc => st.(errCrc := Bump(st.errCrc))
    case BadFraming => st.(errFraming := Bump(st.errFraming))
  }

  lemma {:induction false} StepCounts<C>(code: Code<C>, t: View<C>, b: u8)
    requires Inv(t)
    ensures Step(code, t, b).0.stats == Bumped(t.stats, t.phase == Idle && b != STX, ReportAt(code, t, b))
    ensures t.phase == Idle ==> ReportAt(code, t, b) == Quiet
  {
    StepKeepsInv(code, t, b);
  }

  lemma {:induction false} CountedBumped<C>(code: Code<C>, t: View<C>, b: u8, st: Stats, y: Tally)
    requires Inv(t) && t.stats == Counted(st, y)
    ensures Bumped(t.stats, t.phase == Idle && b != STX, ReportAt(code, t, b)) == Counted(st, TallyByte(code, t, b, y))
  {
    StepCounts(code, t, b);
    match ReportAt(code, t, b) {
      case Quiet => BumpMore(st.discarded, y.skipped);
      case Complete(_) => BumpMore(st.framesOk, y.ok);
      case BadLength => BumpMore(st.errLength, y.badLength);
      case BadCrc => BumpMore(st.errCrc, y.badCrc);
      case BadFraming => BumpMore(st.errFraming, y.badFraming);
    }
  }

  lemma {:induction false} ByteInPlace<C>(code: Code<C>, t: View<C>, b: u8)
    requires Inv(t)
    ensures Inv(Step(code, t, b).0)
    ensures var u, r := Step(code, t, b).0, ReportAt(code, t, b);
            && InProgress(u) + FrameSize(r, t.length) == InProgress(t) + One(t.phase != Idle || b == STX)
            && One(u.phase != Idle) + One(r != Quiet) == One(t.phase != Idle || b == STX)
  {
    StepKeepsInv(code, t, b);
  }

  lemma {:induction false} ByteBalances<C>(code: Code<C>, s: View<C>, t: View<C>, n: nat, y: Tally, b: u8)
    requires Inv(t) && Balanced(s, t, n, y)
    ensures Inv(Step(code, t, b).0) && Balanced(s, Step(code, t, b).0, n + 1, TallyByte(code, t, b, y))
  {
    ByteInPlace(code, t, b);
    var u, z := Step(code, t, b).0, TallyByte(code, t, b, y);
    assert u.stats == Counted(s.stats, z) by {
      StepCounts(code, t, b);
      CountedBumped(code, t, b, s.stats, y);
    }
  }

  /** On every stream from an idle parser: start bytes = frames received + frames rejected in each
      of the three ways + the frame in progress; bytes = bytes discarded + bytes of ended frames +
      bytes of the frame in progress; and the five counters are those numbers modulo 2^32. */
  lemma {:induction false} EveryByteIsCountedOnce<C>(code: Code<C>, s: View<C>, bytes: seq<u8>)
    requires Inv(s) && s.phase == Idle
    ensures Balanced(s, Run(code, s, bytes), |bytes|, TallyOf(code, s, bytes))
  {
    if |bytes| > 0 {
      var k := |bytes| - 1;
      EveryByteIsCountedOnce(code, s, bytes[..k]);
      ByteBalances(code, s, Run(code, s, bytes[..k]), k, TallyOf(code, s, bytes[..k]), bytes[k]);
    }
  }
}
