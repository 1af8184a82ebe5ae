/** rb_put and rb_get as their single loads and stores, interleaved in any way.

    The producer runs rb_put again and again, the consumer rb_get; a move of either is one
    access to the shared buffer or to one of the shared indices. The history of accepted and
    fetched bytes, and the log of results, record what happened and are read by neither. */
module RingBufInterleaving {
  import opened Words
  import opened RingBuf

  datatype Memory = Memory(buf: seq<u8>, head: u32, tail: u32)

  // Where each side stands, with its local variables.
  datatype Producer =
    | Outside
    | HeadLoaded(b: u8, head: u32)
    | RoomSeen(b: u8, head: u32)
    | ByteStored(b: u8, head: u32)

  datatype Consumer =
    | Outside
    | TailLoaded(tail: u32)
    | ByteSeen(tail: u32)
    | ByteRead(tail: u32, b: u8)

  // The results of finished operations.
  datatype Outcome = Accepted(b: u8) | Rejected(b: u8) | Fetched(b: u8) | FoundEmpty

  datatype State = State(
    mem: Memory,
    producer: Producer,
    consumer: Consumer,
    accepted: seq<u8>,
    fetched: seq<u8>,
    log: seq<Outcome>)

  // The next access of one side; b is the byte of the next rb_put and matters only when the
  // producer is outside of one.
  datatype Move = ProducerMove(b: u8) | ConsumerMove

  ghost predicate Sized(s: State) { |s.mem.buf| == CAPACITY }

  function ProducerStep(s: State, b: u8): (s1: State)
    requires Sized(s)
    ensures Sized(s1)
  {
    match s.producer
    case Outside => s.(producer := HeadLoaded(b, s.mem.head))
    case HeadLoaded(c, h) =>
      if Distance(h, s.mem.tail) >= CAPACITY then s.(producer := Producer.Outside, log := s.log + [Rejected(c)])
      else s.(producer := RoomSeen(c, h))
    case RoomSeen(c, h) =>
      s.(mem := s.mem.(buf := s.mem.buf[Slot(h) := c]), producer := ByteStored(c, h))
    case ByteStored(c, h) =>
      s.(mem := s.mem.(head := Wrap32(h + 1)), producer := Producer.Outside,
         accepted := s.accepted + [c], log := s.log + [Accepted(c)])
  }

  function ConsumerStep(s: State): (s1: State)
    requires Sized(s)
    ensures Sized(s1)
  {
    match s.consumer
    case Outside => s.(consumer := TailLoaded(s.mem.tail))
    case TailLoaded(t) =>
      if s.mem.head == t then s.(consumer := Consumer.Outside, log := s.log + [FoundEmpty])
      else s.(consumer := ByteSeen(t))
    case ByteSeen(t) => s.(consumer := ByteRead(t, s.mem.buf[Slot(t)]))
    case ByteRead(t, c) =>
      s.(mem := s.mem.(tail := Wrap32(t + 1)), consumer := Consumer.Outside,
         fetched := s.fetched + [c], log := s.log + [Fetched(c)])
  }

  function Act(s: State, m: Move): (s1: State)
    requires Sized(s)
    ensures Sized(s1)
  {
    match m
    case ProducerMove(b) => ProducerStep(s, b)
    case ConsumerMove => ConsumerStep(s)
  }

  function Run(s: State, moves: seq<Move>): (s1: State)
    requires Sized(s)
    ensures Sized(s1)
  {
    if |moves| == 0 then s else Act(Run(s, moves[..|moves| - 1]), moves[|moves| - 1])
  }

  // An empty ring whose indices stand at `base`; rb_init starts from 0.
  function Start(base: u32, buf: seq<u8>): State
    requires |buf| == CAPACITY
  {
    State(Memory(buf, base, base), Producer.Outside, Consumer.Outside, [], [], [])
  }

  // ------------------------------------------------------------- the bounded queue

  // What each result means for a queue of at most 64 bytes; None if it cannot happen.
  function QueueStep(q: seq<u8>, o: Outcome): Option<seq<u8>> {
    match o
    case Accepted(b) => if |q| < 64 then Some(q + [b]) else None
    case Rejected(b) => if |q| == 64 then Some(q) else None
    case Fetched(b) => if q != [] && q[0] == b then Some(q[1..]) else None
    case FoundEmpty => if q == [] then Some(q) else None
  }

  function QueueRun(log: seq<Outcome>): Option<seq<u8>> {
    if |log| == 0 then Some([])
    else
      match QueueRun(log[..|log| - 1])
      case None => None
      case Some(q) => QueueStep(q, log[|log| - 1])
  }

  // ------------------------------------------------------------- the invariant

  // The bytes accepted and not yet fetched.
  function Queue(s: State): seq<u8>
    requires |s.fetched| <= |s.accepted|
  {
    s.accepted[|s.fetched|..]
  }

  ghost predicate Indices(s: State, base: u32) {
    && Sized(s)
    && |s.fetched| <= |s.accepted| <= |s.fetched| + CAPACITY
    && s.mem.head == Wrap32(base + |s.accepted|)
    && s.mem.tail == Wrap32(base + |s.fetched|)
  }

  ghost predicate ProducerKnows(s: State, base: u32)
    requires Indices(s, base)
  {
    match s.producer
    case Outside => true
    case HeadLoaded(_, h) => h == s.mem.head
    case RoomSeen(_, h) => h == s.mem.head && |Queue(s)| < CAPACITY
    case ByteStored(b, h) =>
      h == s.mem.head && |Queue(s)| < CAPACITY && s.mem.buf[SlotOf(base, |s.accepted|)] == b
  }

  ghost predicate ConsumerKnows(s: State, base: u32)
    requires Indices(s, base)
  {
    match s.consumer
    case Outside => true
    case TailLoaded(t) => t == s.mem.tail
    case ByteSeen(t) => t == s.mem.tail && Queue(s) != []
    case ByteRead(t, b) => t == s.mem.tail && Queue(s) != [] && b == Queue(s)[0]
  }

  ghost predicate Inv(s: State, base: u32) {
    && Indices(s, base)
    && s.fetched <= s.accepted
    && Stored(s.mem.buf, base, s.accepted, |s.fetched|)
    && ProducerKnows(s, base)
    && ConsumerKnows(s, base)
    && QueueRun(s.log) == Some(Queue(s))
  }

  lemma StartInv(base: u32, buf: seq<u8>)
    requires |buf| == CAPACITY
    ensures Inv(Start(base, buf), base)
  {
  }

  lemma LogStep(log: seq<Outcome>, o: Outcome, q: seq<u8>)
    requires QueueRun(log) == Some(q)
    ensures QueueRun(log + [o]) == QueueStep(q, o)
  {
    assert (log + [o])[..|log|] == log;
  }

  lemma PutBegins(s: State, b: u8, base: u32)
    requires Inv(s, base) && s.producer.Outside?
    ensures Inv(ProducerStep(s, b), base)
  {
  }

  lemma PutChecks(s: State, b: u8, base: u32)
    requires Inv(s, base) && s.producer.HeadLoaded?
    ensures Inv(ProducerStep(s, b), base)
  {
    Depth(s, base);
    LogStep(s.log, Rejected(s.producer.b), Queue(s));
  }

  lemma PutStores(s: State, b: u8, base: u32)
    requires Inv(s, base) && s.producer.RoomSeen?
    ensures Inv(ProducerStep(s, b), base)
  {
    FreeRunning(base, |s.accepted|, |s.fetched|);
    StoreApart(s.mem.buf, base, s.accepted, |s.fetched|, s.producer.b);
  }

  lemma PutPublishes(s: State, b: u8, base: u32)
    requires Inv(s, base) && s.producer.ByteStored?
    ensures Inv(ProducerStep(s, b), base)
  {
    var c, n := s.producer.b, |s.accepted|;
    WrapSum(base + n, 1);
    StoredSnoc(s.mem.buf, base, s.accepted, |s.fetched|, c);
    var s1 := ProducerStep(s, b);
    assert Indices(s1, base);
    assert Queue(s1) == Queue(s) + [c];
    assert ConsumerKnows(s1, base);
    LogStep(s.log, Accepted(c), Queue(s));
  }

  lemma ProducerKeepsInv(s: State, b: u8, base: u32)
    requires Inv(s, base)
    ensures Inv(ProducerStep(s, b), base)
  {
    match s.producer
    case RoomSeen(_, _) => PutStores(s, b, base);
    case ByteStored(_, _) => PutPublishes(s, b, base);
    case HeadLoaded(_, _) => PutChecks(s, b, base);
    case Outside => PutBegins(s, b, base);
  }

  lemma GetChecks(s: State, base: u32)
    requires Inv(s, base) && (s.consumer.Outside? || s.consumer.TailLoaded?)
    ensures Inv(ConsumerStep(s), base)
  {
    if s.consumer.TailLoaded? {
      FreeRunning(base, |s.accepted|, |s.fetched|);
      assert s.mem.head == s.mem.tail <==> Queue(s) == [];
      LogStep(s.log, FoundEmpty, Queue(s));
    }
  }

  lemma GetReads(s: State, base: u32)
    requires Inv(s, base) && s.consumer.ByteSeen?
    ensures Inv(ConsumerStep(s), base)
  {
    FreeRunning(base, |s.fetched|, |s.fetched|);
    assert s.mem.buf[Slot(s.mem.tail)] == Queue(s)[0];
  }

  lemma GetReleases(s: State, base: u32)
    requires Inv(s, base) && s.consumer.ByteRead?
    ensures Inv(ConsumerStep(s), base)
  {
    var s1 := ConsumerStep(s);
    WrapSum(base + |s.fetched|, 1);
    assert Indices(s1, base);
    assert Queue(s1) == Queue(s)[1..];
    assert s1.fetched <= s1.accepted;
    assert ProducerKnows(s1, base);
    LogStep(s.log, Fetched(s.consumer.b), Queue(s));
  }

  lemma ConsumerKeepsInv(s: State, base: u32)
    requires Inv(s, base)
    ensures Inv(ConsumerStep(s), base)
  {
    match s.consumer
    case ByteSeen(_) => GetReads(s, base);
    case ByteRead(_, _) => GetReleases(s, base);
    case _ => GetChecks(s, base);
  }

  lemma {:induction false} RunKeepsInv(s: State, moves: seq<Move>, base: u32)
    requires Inv(s, base)
    ensures Inv(Run(s, moves), base)
  {
    if |moves| > 0 {
      RunKeepsInv(s, moves[..|moves| - 1], base);
      var s0 := Run(s, moves[..|moves| - 1]);
      match moves[|moves| - 1]
      case ProducerMove(b) => ProducerKeepsInv(s0, b, base);
      case ConsumerMove => ConsumerKeepsInv(s0, base);
    }
  }

  // The distance of the indices is the number of unread bytes.
  lemma Depth(s: State, base: u32)
    requires Indices(s, base)
    ensures Distance(s.mem.head, s.mem.tail) == |Queue(s)| == |s.accepted| - |s.fetched| <= 64
  {
    FreeRunning(base, |s.accepted|, |s.fetched|);
  }

  // ------------------------------------------------------------- the main results

  /** In every interleaving, of any length and over any number of index wraps, the results are
      those of a bounded first-in-first-out queue of 64 bytes, each taking effect at one of
      the operation's own accesses; so the bytes fetched are the first ones accepted. */
  lemma EveryInterleavingIsAQueue(base: u32, buf: seq<u8>, moves: seq<Move>)
    requires |buf| == CAPACITY
    ensures var s := Run(Start(base, buf), moves);
            && s.fetched <= s.accepted
            && QueueRun(s.log) == Some(s.accepted[|s.fetched|..])
            && |s.accepted| - |s.fetched| == Distance(s.mem.head, s.mem.tail) <= 64
  {
    StartInv(base, buf);
    RunKeepsInv(Start(base, buf), moves, base);
    Depth(Run(Start(base, buf), moves), base);
  }

  /** Every unread byte stays in its slot: whenever the producer is about to store, and
      wherever the consumer stands, it stores to another slot. */
  lemma NoUnreadByteOverwritten(base: u32, buf: seq<u8>, moves: seq<Move>, i: nat)
    requires |buf| == CAPACITY
    requires var s := Run(Start(base, buf), moves); |s.fetched| <= i < |s.accepted|
    ensures var s := Run(Start(base, buf), moves);
            && s.mem.buf[SlotOf(base, i)] == s.accepted[i]
            && (s.producer.RoomSeen? ==> Slot(s.producer.head) != SlotOf(base, i))
  {
    StartInv(base, buf);
    RunKeepsInv(Start(base, buf), moves, base);
    var s := Run(Start(base, buf), moves);
    if s.producer.RoomSeen? {
      FreeRunning(base, |s.accepted|, |s.fetched|);
      SlotsApart(base, i, |s.accepted|);
    }
  }

  // Only the consumer moves the tail and only the producer moves the head, so a count taken
  // by the consumer, with any producer moves between its two loads, is at most the true depth if
  // the head is loaded first, and the true depth if the tail is.
  lemma {:induction false} ProducerOnly(s: State, moves: seq<Move>, base: u32)
    requires Inv(s, base) && forall i | 0 <= i < |moves| :: moves[i].ProducerMove?
    ensures Inv(Run(s, moves), base)
    ensures var s1 := Run(s, moves);
            s1.mem.tail == s.mem.tail && s1.fetched == s.fetched && s.accepted <= s1.accepted
  {
    if |moves| > 0 {
      ProducerOnly(s, moves[..|moves| - 1], base);
      ProducerKeepsInv(Run(s, moves[..|moves| - 1]), moves[|moves| - 1].b, base);
    }
  }

  lemma ConsumerCountIsSafe(s: State, between: seq<Move>, base: u32)
    requires Inv(s, base) && forall i | 0 <= i < |between| :: between[i].ProducerMove?
    ensures var s1 := Run(s, between);
            && |s1.fetched| <= |s1.accepted|
            && Distance(s.mem.head, s1.mem.tail) <= |Queue(s1)| <= 64
  {
    ProducerOnly(s, between, base);
    Depth(s, base);
    Depth(Run(s, between), base);
  }

  lemma TailFirstCountIsExact(s: State, between: seq<Move>, base: u32)
    requires Inv(s, base) && forall i | 0 <= i < |between| :: between[i].ProducerMove?
    ensures var s1 := Run(s, between);
            && |s1.fetched| <= |s1.accepted|
            && Distance(s1.mem.head, s.mem.tail) == |Queue(s1)| <= 64
  {
    ProducerOnly(s, between, base);
    Depth(Run(s, between), base);
  }
}
