/** Example 04: the SysTick handler produces a repeating pattern into the ring buffer while
    the main loop consumes and checks it. The handler preempts the main loop between any two
    of its accesses and then runs to its end. */
module SysTickDemo {
  import opened Words
  import opened RingBuf
  import RB = RingBufInterleaving

  const GOAL := 260
  const PERIOD := 26

  // Where the main loop stands: at its head, between the two loads of rb_count, which C leaves in
  // either order, inside rb_get, or past the loop, where it consumes nothing.
  datatype Main = Top | HeadSeen(head: u32) | TailSeen(tail: u32) | Getting | Stalled

  datatype Demo = Demo(
    ring: RB.State,
    ticks: u32,
    produced: u32,
    dropped: u32,
    main: Main,
    consumed: u32,
    expected: u8,
    errors: u32,
    highWater: u32)

  // A count that starts with this access loads the tail first or the head first.
  datatype Turn = Tick | MainAccess(tailFirst: bool)

  function Letter(i: nat): u8 { 65 + i % PERIOD }

  function Handler(d: Demo): (d1: Demo)
    requires RB.Sized(d.ring)
    ensures RB.Sized(d1.ring)
  {
    var b := Letter(d.produced);
    var checked := RB.ProducerStep(RB.ProducerStep(d.ring, b), b);
    if checked.producer.RoomSeen? then
      var stored := RB.ProducerStep(RB.ProducerStep(checked, b), b);
      d.(ring := stored, ticks := Wrap32(d.ticks + 1), produced := Wrap32(d.produced + 1))
    else
      d.(ring := checked, ticks := Wrap32(d.ticks + 1), dropped := Wrap32(d.dropped + 1))
  }

  function Consume(d: Demo): (d1: Demo)
    requires RB.Sized(d.ring)
    ensures RB.Sized(d1.ring)
  {
    var ring := RB.ConsumerStep(d.ring);
    if !ring.consumer.Outside? then d.(ring := ring)
    else if d.ring.consumer.ByteRead? then
      d.(ring := ring,
         errors := if d.ring.consumer.b != d.expected then Wrap32(d.errors + 1) else d.errors,
         expected := Letter(Wrap32(d.consumed + 1)),
         consumed := Wrap32(d.consumed + 1),
         main := Top)
    else d.(ring := ring, main := Top)
  }

  // The count that the main loop's next access completes, once it has begun one.
  function Count(d: Demo): Option<u32> {
    match d.main
    case HeadSeen(h) => Some(Distance(h, d.ring.mem.tail))
    case TailSeen(t) => Some(Distance(d.ring.mem.head, t))
    case _ => None
  }

  function MainStep(d: Demo, tailFirst: bool): (d1: Demo)
    requires RB.Sized(d.ring)
    ensures RB.Sized(d1.ring)
  {
    match Count(d)
    case Some(depth) => d.(main := Getting, highWater := if depth > d.highWater then depth else d.highWater)
    case None =>
      if d.main == Top then
        d.(main :=
             if d.consumed >= GOAL then Stalled
             else if tailFirst then TailSeen(d.ring.mem.tail)
             else HeadSeen(d.ring.mem.head))
      else if d.main == Getting then Consume(d)
      else d
  }

  function Act(d: Demo, t: Turn): (d1: Demo)
    requires RB.Sized(d.ring)
    ensures RB.Sized(d1.ring)
  {
    match t
    case Tick => Handler(d)
    case MainAccess(tailFirst) => MainStep(d, tailFirst)
  }

  function Run(d: Demo, turns: seq<Turn>): (d1: Demo)
    requires RB.Sized(d.ring)
    ensures RB.Sized(d1.ring)
  {
    if |turns| == 0 then d else Act(Run(d, turns[..|turns| - 1]), turns[|turns| - 1])
  }

  function Start(buf: seq<u8>): Demo
    requires |buf| == CAPACITY
  {
    Demo(RB.Start(0, buf), 0, 0, 0, Top, 0, Letter(0), 0, 0)
  }

  // ------------------------------------------------------------- what every run keeps

  ghost predicate Patterned(bytes: seq<u8>) { forall i | 0 <= i < |bytes| :: bytes[i] == Letter(i) }

  // What main and handler keep about the buffer and their counters of bytes.
  ghost predicate Paired(d: Demo) {
    && RB.Inv(d.ring, 0)
    && d.ring.producer.Outside?
    && d.consumed == |d.ring.fetched| <= GOAL
    && d.produced == |d.ring.accepted|
    && Patterned(d.ring.accepted)
  }

  ghost predicate MainKnows(d: Demo)
    requires Paired(d)
  {
    match d.main
    case HeadSeen(h) =>
      d.consumed < GOAL && d.ring.consumer.Outside? && Distance(h, d.ring.mem.tail) <= |RB.Queue(d.ring)|
    case TailSeen(t) => d.consumed < GOAL && d.ring.consumer.Outside? && t == d.ring.mem.tail
    case Getting => d.consumed < GOAL
    case Top => d.ring.consumer.Outside?
    case Stalled => d.consumed == GOAL && d.ring.consumer.Outside?
  }

  ghost predicate Inv(d: Demo) {
    && Paired(d)
    && MainKnows(d)
    && d.expected == Letter(d.consumed)
    && d.errors == 0
    && d.highWater <= CAPACITY
    && d.ticks == Wrap32(d.produced + d.dropped)
  }

  lemma CountTick(p: nat, q: u32)
    ensures Wrap32(Wrap32(p + q) + 1) == Wrap32((p + 1) + q) == Wrap32(p + Wrap32(q + 1))
  {
  }

  lemma PatternSnoc(bytes: seq<u8>)
    requires Patterned(bytes)
    ensures Patterned(bytes + [Letter(|bytes|)])
  {
  }

  lemma HandlerRing(s: RB.State, b: u8)
    requires RB.Inv(s, 0) && s.producer.Outside?
    ensures var checked := RB.ProducerStep(RB.ProducerStep(s, b), b);
            && RB.Inv(checked, 0)
            && (if |RB.Queue(s)| < CAPACITY then checked.producer == RB.RoomSeen(b, s.mem.head)
                else checked.producer.Outside?)
            && checked.accepted == s.accepted && checked.fetched == s.fetched
            && checked.consumer == s.consumer && checked.mem == s.mem
  {
    RB.ProducerKeepsInv(s, b, 0);
    RB.ProducerKeepsInv(RB.ProducerStep(s, b), b, 0);
    FreeRunning(0, |s.accepted|, |s.fetched|);
  }

  lemma HandlerStores(s: RB.State, b: u8, c: u8)
    requires RB.Inv(s, 0) && s.producer.RoomSeen? && s.producer.b == c
    ensures var stored := RB.ProducerStep(RB.ProducerStep(s, b), b);
            && RB.Inv(stored, 0) && stored.producer.Outside?
            && stored.accepted == s.accepted + [c] && stored.fetched == s.fetched
            && stored.consumer == s.consumer && stored.mem.tail == s.mem.tail
  {
    RB.ProducerKeepsInv(s, b, 0);
    RB.ProducerKeepsInv(RB.ProducerStep(s, b), b, 0);
  }

  lemma AcceptedKeepsInv(d: Demo, ring: RB.State)
    requires Inv(d) && |RB.Queue(d.ring)| < CAPACITY
    requires RB.Inv(ring, 0) && ring.producer.Outside?
    requires |ring.accepted| == d.produced + 1 && Patterned(ring.accepted) && ring.fetched == d.ring.fetched
    requires ring.consumer == d.ring.consumer && ring.mem.tail == d.ring.mem.tail
    ensures Wrap32(d.produced + 1) == d.produced + 1
    ensures Inv(d.(ring := ring, ticks := Wrap32(d.ticks + 1), produced := Wrap32(d.produced + 1)))
  {
    NoTickWraps(d.produced);
    var d1 := d.(ring := ring, ticks := Wrap32(d.ticks + 1), produced := d.produced + 1);
    assert Paired(d1);
    MoreKnown(d, d1);
    CountTick(d.produced, d.dropped);
  }

  lemma NoTickWraps(n: nat)
    requires n < GOAL + CAPACITY
    ensures Wrap32(n + 1) == n + 1
  {
  }

  // What the main loop knows stays true when a byte comes in.
  lemma MoreKnown(d: Demo, d1: Demo)
    requires Paired(d) && MainKnows(d) && Paired(d1)
    requires d1.main == d.main && d1.consumed == d.consumed
    requires d1.ring.consumer == d.ring.consumer && d1.ring.mem.tail == d.ring.mem.tail
    requires |RB.Queue(d1.ring)| >= |RB.Queue(d.ring)|
    ensures MainKnows(d1)
  {
  }

  lemma HandlerAccepts(d: Demo)
    requires Inv(d) && |RB.Queue(d.ring)| < CAPACITY
    ensures Inv(Handler(d)) && Handler(d).produced == d.produced + 1
  {
    var b := Letter(d.produced);
    HandlerRing(d.ring, b);
    var checked := RB.ProducerStep(RB.ProducerStep(d.ring, b), b);
    HandlerStores(checked, b, b);
    PatternSnoc(d.ring.accepted);
    AcceptedKeepsInv(d, RB.ProducerStep(RB.ProducerStep(checked, b), b));
  }

  lemma HandlerDrops(d: Demo)
    requires Inv(d) && |RB.Queue(d.ring)| == CAPACITY
    ensures Inv(Handler(d)) && Handler(d).produced == d.produced
  {
    var b := Letter(d.produced);
    HandlerRing(d.ring, b);
    CountTick(d.produced, d.dropped);
    var d1 := Handler(d);
    assert Paired(d1);
  }

  // The byte read is the oldest unread of the pattern.
  lemma OldestIsExpected(d: Demo)
    requires Paired(d) && d.ring.consumer.ByteRead?
    ensures d.ring.consumer.b == Letter(d.consumed)
  {
    assert d.ring.consumer.b == RB.Queue(d.ring)[0] == d.ring.accepted[d.consumed];
  }

  lemma RingConsumed(s: RB.State)
    requires RB.Inv(s, 0) && s.consumer.ByteRead?
    ensures var s1 := RB.ConsumerStep(s);
            && RB.Inv(s1, 0) && s1.consumer.Outside? && s1.producer == s.producer
            && s1.accepted == s.accepted && |s1.fetched| == |s.fetched| + 1
  {
    RB.ConsumerKeepsInv(s, 0);
  }

  lemma ConsumedPaired(d: Demo)
    requires Paired(d) && d.main.Getting? && d.consumed < GOAL && d.ring.consumer.ByteRead?
    ensures Paired(Consume(d)) && Consume(d).consumed == d.consumed + 1
    ensures Consume(d).main == Top && Consume(d).ring.consumer.Outside?
  {
    RingConsumed(d.ring);
    NoTickWraps(d.consumed);
  }

  // So the consumed byte is the expected one.
  lemma ConsumedAsExpected(d: Demo)
    requires Inv(d) && d.main.Getting? && d.ring.consumer.ByteRead?
    ensures d.ring.consumer.b == d.expected
    ensures Inv(Consume(d))
  {
    OldestIsExpected(d);
    ConsumedPaired(d);
    assert MainKnows(Consume(d));
  }

  // And a byte that is not would be counted.
  lemma WrongByteIsCounted(d: Demo, tailFirst: bool)
    requires RB.Sized(d.ring) && d.main.Getting?
    ensures MainStep(d, tailFirst).errors ==
            if d.ring.consumer.ByteRead? && d.ring.consumer.b != d.expected then Wrap32(d.errors + 1) else d.errors
  {
  }

  lemma GettingKeepsInv(d: Demo)
    requires Inv(d) && d.main.Getting? && !d.ring.consumer.ByteRead?
    ensures Inv(Consume(d))
  {
    RB.ConsumerKeepsInv(d.ring, 0);
  }

  lemma CountingKeepsInv(d: Demo, tailFirst: bool)
    requires Inv(d) && !d.main.Getting?
    ensures Inv(MainStep(d, tailFirst))
  {
    FreeRunning(0, |d.ring.accepted|, |d.ring.fetched|);
  }

  lemma ActKeepsInv(d: Demo, t: Turn)
    requires Inv(d)
    ensures Inv(Act(d, t))
  {
    if t.Tick? {
      if |RB.Queue(d.ring)| < CAPACITY {
        HandlerAccepts(d);
      } else {
        HandlerDrops(d);
      }
    } else if !d.main.Getting? {
      CountingKeepsInv(d, t.tailFirst);
    } else if d.ring.consumer.ByteRead? {
      ConsumedAsExpected(d);
    } else {
      GettingKeepsInv(d);
    }
  }

  lemma {:induction false} RunKeepsInv(buf: seq<u8>, turns: seq<Turn>)
    requires |buf| == CAPACITY
    ensures Inv(Run(Start(buf), turns))
  {
    if |turns| == 0 {
      RB.StartInv(0, buf);
    } else {
      RunKeepsInv(buf, turns[..|turns| - 1]);
      ActKeepsInv(Run(Start(buf), turns[..|turns| - 1]), turns[|turns| - 1]);
    }
  }

  lemma {:induction false} TicksCounted(buf: seq<u8>, turns: seq<Turn>)
    requires |buf| == CAPACITY
    ensures Run(Start(buf), turns).ticks == Wrap32(Ticks(turns))
  {
    if |turns| > 0 {
      TicksCounted(buf, turns[..|turns| - 1]);
      CountTick(Ticks(turns[..|turns| - 1]), 0);
    }
  }

  function Ticks(turns: seq<Turn>): nat {
    if |turns| == 0 then 0 else Ticks(turns[..|turns| - 1]) + if turns[|turns| - 1].Tick? then 1 else 0
  }

  /** However the ticks fall between the accesses of the main loop: every tick is counted as
      produced or dropped, what is produced and not consumed is in the buffer, the i-th byte
      consumed is the i-th letter of the pattern so that no ordering error is counted, the
      high-water mark never passes the capacity, and a count that the main loop has begun will
      not exceed the true depth, and be the true depth if it began with the tail. */
  lemma SequenceIntact(buf: seq<u8>, turns: seq<Turn>)
    requires |buf| == CAPACITY
    ensures Intact(Run(Start(buf), turns), Ticks(turns))
  {
    RunKeepsInv(buf, turns);
    TicksCounted(buf, turns);
    InvIntact(Run(Start(buf), turns), Ticks(turns));
  }

  ghost predicate Intact(d: Demo, ticks: nat) {
    var depth := Distance(d.ring.mem.head, d.ring.mem.tail);
    && Wrap32(d.produced + d.dropped) == Wrap32(ticks)
    && d.produced == d.consumed + depth
    && |d.ring.fetched| == d.consumed <= 260
    && (forall i | 0 <= i < |d.ring.fetched| :: d.ring.fetched[i] == 'A' as int + i % 26)
    && (if d.main.Stalled? then d.consumed == 260 else d.consumed < 260 || d.main.Top?)
    && d.errors == 0
    && d.highWater <= 64
    && (Count(d).Some? ==> Count(d).value <= depth <= 64)
    && (d.main.TailSeen? ==> Count(d).value == depth)
  }

  lemma InvIntact(d: Demo, ticks: nat)
    requires Inv(d) && d.ticks == Wrap32(ticks)
    ensures Intact(d, ticks)
  {
    Depth(d);
    CountBegun(d);
  }

  lemma CountBegun(d: Demo)
    requires Inv(d)
    ensures Count(d).Some? ==> Count(d).value <= Distance(d.ring.mem.head, d.ring.mem.tail)
    ensures d.main.TailSeen? ==> Count(d).value == Distance(d.ring.mem.head, d.ring.mem.tail)
  {
    Depth(d);
  }

  // The counts the main loop has taken.
  function Counts(buf: seq<u8>, turns: seq<Turn>): seq<u32>
    requires |buf| == CAPACITY
  {
    if |turns| == 0 then []
    else
      var front := turns[..|turns| - 1];
      var d := Run(Start(buf), front);
      Counts(buf, front) +
      if turns[|turns| - 1].MainAccess? && Count(d).Some? then [Count(d).value] else []
  }

  predicate IsLargest(m: u32, counts: seq<u32>) { (m == 0 || m in counts) && forall c | c in counts :: c <= m }

  lemma LargestMore(m: u32, counts: seq<u32>, c: u32)
    requires IsLargest(m, counts)
    ensures IsLargest(if c > m then c else m, counts + [c])
  {
    assert c in counts + [c];
    assert forall x | x in counts :: x in counts + [c];
  }

  /** No count is above the high-water mark, and the mark is one of them unless it is 0. */
  lemma {:induction false} HighWaterIsLargest(buf: seq<u8>, turns: seq<Turn>)
    requires |buf| == CAPACITY
    ensures IsLargest(Run(Start(buf), turns).highWater, Counts(buf, turns))
  {
    if |turns| > 0 {
      var front := turns[..|turns| - 1];
      var d := Run(Start(buf), front);
      HighWaterIsLargest(buf, front);
      if turns[|turns| - 1].MainAccess? && Count(d).Some? {
        LargestMore(d.highWater, Counts(buf, front), Count(d).value);
      } else {
        HighWaterKept(d, turns[|turns| - 1]);
        assert Counts(buf, turns) == Counts(buf, front);
      }
    }
  }

  lemma HighWaterKept(d: Demo, t: Turn)
    requires RB.Sized(d.ring) && (t.MainAccess? ==> Count(d).None?)
    ensures Act(d, t).highWater == d.highWater
  {
  }

  lemma Depth(d: Demo)
    requires Inv(d)
    ensures d.produced == d.consumed + Distance(d.ring.mem.head, d.ring.mem.tail)
    ensures Patterned(d.ring.fetched)
    ensures |RB.Queue(d.ring)| == Distance(d.ring.mem.head, d.ring.mem.tail) <= CAPACITY
  {
    FreeRunning(0, |d.ring.accepted|, |d.ring.fetched|);
  }
}
