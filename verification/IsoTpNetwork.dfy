/** A sender and a receiver joined by two first-in-first-out channels, under any schedule. */
module IsoTpNetwork {
  import opened Words
  import opened IsoTpFormat
  import R = IsoTpReceiver
  import S = IsoTpSender
  import H = IsoTpHistory
  import opened IsoTpTransfer

  // When the caller on the receiving side sends the flow-control frame: only when the event asks
  // for it, as the header says and as the host tests' driver does, or also on an overflow error,
  // for which the receiver has built one.
  datatype Policy = OnRequest | AlsoOnOverflow

  // `wire` carries data frames, `back` flow control. `inbox` collects the reported messages,
  // `errors` counts error events on either side; `pumped` and `delivered` count data frames.
  datatype Net = Net(
    tx: S.View,
    rx: R.View,
    wire: seq<Frame>,
    back: seq<Frame>,
    inbox: seq<seq<u8>>,
    errors: nat,
    pumped: nat,
    delivered: nat,
    policy: Policy)

  datatype Action = Pump | DeliverData | DeliverFlow

  predicate IsError(ev: Event) { ev !in {EvNone, EvMessage, EvSendFc} }

  ghost predicate Wellformed(n: Net) { S.Sound(n.tx) && R.Inv(n.rx) }

  function PumpStep(n: Net): (n1: Net)
    requires Wellformed(n)
    ensures Wellformed(n1)
  {
    var (tx, out) := S.Next(n.tx);
    if out == None then n.(tx := tx)
    else
      var f: Frame := RawFrame(out.value, CAN_DLC);
      n.(tx := tx, wire := n.wire + [f], pumped := n.pumped + 1)
  }

  predicate Answers(policy: Policy, ev: Event) {
    ev == EvSendFc || (policy == AlsoOnOverflow && ev == EvErrOverflow)
  }

  // The network after the receiver took the first frame of the wire with that outcome.
  function Taken(n: Net, rx: R.View, ev: Event): (n1: Net)
    requires Wellformed(n) && n.wire != [] && R.Inv(rx)
    ensures Wellformed(n1)
  {
    var fc: Frame := RawFrame(rx.fc, CAN_DLC);
    n.(rx := rx,
       wire := n.wire[1..],
       back := if Answers(n.policy, ev) then n.back + [fc] else n.back,
       inbox := if ev == EvMessage then n.inbox + [rx.content] else n.inbox,
       errors := if IsError(ev) then n.errors + 1 else n.errors,
       delivered := n.delivered + 1)
  }

  function DataStep(n: Net): (n1: Net)
    requires Wellformed(n)
    ensures Wellformed(n1)
  {
    if n.wire == [] then n
    else
      R.StepKeepsInv(n.rx, n.wire[0]);
      var (rx, ev) := R.Step(n.rx, n.wire[0]);
      Taken(n, rx, ev)
  }

  function FlowStep(n: Net): (n1: Net)
    requires Wellformed(n)
    ensures Wellformed(n1)
  {
    if n.back == [] then n
    else
      var (tx, ev) := S.Flow(n.tx, n.back[0]);
      n.(tx := tx, back := n.back[1..], errors := if IsError(ev) then n.errors + 1 else n.errors)
  }

  function Act(n: Net, a: Action): (n1: Net)
    requires Wellformed(n)
    ensures Wellformed(n1)
  {
    match a
    case Pump => PumpStep(n)
    case DeliverData => DataStep(n)
    case DeliverFlow => FlowStep(n)
  }

  function Run(n: Net, schedule: seq<Action>): (n1: Net)
    requires Wellformed(n)
    ensures Wellformed(n1)
    decreases |schedule|
  {
    if schedule == [] then n else Run(Act(n, schedule[0]), schedule[1..])
  }

  // A new transfer to a receiver with any past.
  function Start(p: seq<u8>, rx: R.View, policy: Policy): (n: Net)
    requires Sendable(p) && R.Inv(rx)
    ensures Wellformed(n)
  {
    Net(S.Start(p), rx, [], [], [], 0, 0, 0, policy)
  }

  // ------------------------------------------------------------- the invariant

  // A grant is on its way: the sender has used up its block and everything it sent arrived.
  ghost predicate GrantInFlight(n: Net, p: seq<u8>)
    requires Sendable(p)
  {
    && 0 < n.pumped == n.delivered < FrameCount(|p|)
    && n.back == [RawFrame(R.FlowControlFrame(n.rx.cfg, FS_CTS), CAN_DLC)]
    && n.rx.cfSinceFc == 0
    && (n.tx.phase == S.WaitFc || (n.tx.phase == S.Sending && S.Exhausted(n.tx)))
  }

  // No grant is on its way: the sender has not started, or its first frame is not answered,
  // or it works within a block that both sides count from the same frame on.
  ghost predicate NoGrantInFlight(n: Net, p: seq<u8>)
    requires Sendable(p)
  {
    && n.back == []
    && (n.pumped > 0 && FrameCount(|p|) > 1 ==>
          if n.delivered == 0 then n.pumped == 1 && n.tx.phase == S.WaitFc
          else
            && n.tx.blockSize == n.rx.cfg.blockSize
            && (n.tx.phase == S.WaitFc ==> S.Exhausted(n.tx))
            && (n.tx.blockSize != 0 ==> n.tx.cfInBlock <= n.tx.blockSize)
            && (n.tx.blockSize != 0 && n.delivered < FrameCount(|p|) ==>
                  n.pumped - n.tx.cfInBlock == n.delivered - n.rx.cfSinceFc))
  }

  // The data part of the invariant: the channel carries what is sent and not yet delivered.
  ghost predicate GoodData(n: Net, p: seq<u8>) {
    && Wellformed(n)
    && Sendable(p) && |p| <= n.rx.cfg.limit
    && S.HasSent(n.tx, p, n.pumped) && n.tx.phase != S.Aborted
    && HasReceived(n.rx, p, n.delivered)
    && Carries(n.wire, p, n.delivered, n.pumped)
    && n.errors == 0
    && n.inbox == (if n.delivered == FrameCount(|p|) then [p] else [])
  }

  ghost predicate GoodFlow(n: Net, p: seq<u8>)
    requires Sendable(p)
  {
    GrantInFlight(n, p) || NoGrantInFlight(n, p)
  }

  ghost predicate Good(n: Net, p: seq<u8>) { GoodData(n, p) && GoodFlow(n, p) }

  lemma StartGood(p: seq<u8>, rx: R.View, policy: Policy)
    requires Sendable(p) && R.Inv(rx) && |p| <= rx.cfg.limit
    ensures Good(Start(p, rx, policy), p)
  {
  }

  // What is left to do; every action that changes anything makes it smaller.
  function Work(n: Net, p: seq<u8>): int
    requires Sendable(p)
  {
    4 * (FrameCount(|p|) - n.pumped) + 3 * |n.wire| + 2 * |n.back| + if n.tx.phase == S.Sending then 1 else 0
  }

  ghost predicate Progress(n: Net, n1: Net, p: seq<u8>)
    requires Sendable(p)
  {
    && n1.rx.cfg == n.rx.cfg && n1.policy == n.policy
    && (n1 == n || Work(n1, p) < Work(n, p))
  }

  lemma CarriesMore(wire: seq<Frame>, p: seq<u8>, from: nat, to: nat, f: Frame)
    requires Sendable(p) && Carries(wire, p, from, to) && to < FrameCount(|p|) && f == FrameAt(p, to)
    ensures Carries(wire + [f], p, from, to + 1)
  {
  }

  lemma CarriesLess(wire: seq<Frame>, p: seq<u8>, from: nat, to: nat)
    requires Sendable(p) && Carries(wire, p, from, to) && from < to
    ensures wire[0] == FrameAt(p, from) && Carries(wire[1..], p, from + 1, to)
  {
  }

  lemma PumpData(n: Net, p: seq<u8>)
    requires Good(n, p)
    ensures GoodData(PumpStep(n), p)
    ensures PumpStep(n).pumped > n.pumped <==> n.tx.phase == S.Idle || (n.tx.phase == S.Sending && !S.Exhausted(n.tx))
    ensures PumpStep(n).pumped == n.pumped ==>
              PumpStep(n) == if n.tx.phase == S.Sending then n.(tx := n.tx.(phase := S.WaitFc)) else n
  {
    S.NextSendsNextFrame(n.tx, p, n.pumped);
    if S.Next(n.tx).1.Some? {
      FrameShape(p, n.pumped);
      CarriesMore(n.wire, p, n.delivered, n.pumped, FrameAt(p, n.pumped));
    }
  }

  lemma PumpProgress(n: Net, p: seq<u8>)
    requires Good(n, p)
    ensures Good(PumpStep(n), p) && Progress(n, PumpStep(n), p)
  {
    PumpData(n, p);
    S.NextCounts(n.tx, p, n.pumped);
  }

  // The receiver's outcome on the next frame of the segmentation.
  ghost predicate Outcome(n: Net, p: seq<u8>, rx: R.View, ev: Event) {
    && GoodData(n, p) && n.wire != [] && n.delivered < FrameCount(|p|)
    && HasReceived(rx, p, n.delivered + 1)
    && rx.cfg == n.rx.cfg
    && ev == ExpectedEvent(n.rx, p, n.delivered)
    && (ev == EvSendFc ==> rx.cfSinceFc == 0 && rx.fc == R.FlowControlFrame(n.rx.cfg, FS_CTS))
    && (ev == EvNone ==> rx.cfSinceFc == Wrap16(n.rx.cfSinceFc + 1))
  }

  lemma OutcomeOf(n: Net, p: seq<u8>)
    requires GoodData(n, p) && n.wire != []
    ensures Outcome(n, p, R.Step(n.rx, n.wire[0]).0, R.Step(n.rx, n.wire[0]).1)
  {
    CarriesLess(n.wire, p, n.delivered, n.pumped);
    FrameAdvances(n.rx, p, n.delivered);
  }

  lemma DataData(n: Net, p: seq<u8>, rx: R.View, ev: Event)
    requires Outcome(n, p, rx, ev)
    ensures GoodData(Taken(n, rx, ev), p)
  {
    CarriesLess(n.wire, p, n.delivered, n.pumped);
  }

  // Data in flight means no grant is; and a grant goes out only when the sender's block is
  // used up, for both sides count it from the same frame.
  lemma DataGrants(n: Net, p: seq<u8>, rx: R.View, ev: Event)
    requires Good(n, p) && Outcome(n, p, rx, ev) && ev == EvSendFc
    ensures GrantInFlight(Taken(n, rx, ev), p)
  {
    assert NoGrantInFlight(n, p);
  }

  lemma DataSilent(n: Net, p: seq<u8>, rx: R.View, ev: Event)
    requires Good(n, p) && Outcome(n, p, rx, ev) && ev != EvSendFc
    ensures NoGrantInFlight(Taken(n, rx, ev), p)
  {
    assert NoGrantInFlight(n, p);
  }

  lemma DataProgress(n: Net, p: seq<u8>)
    requires Good(n, p)
    ensures Good(DataStep(n), p) && Progress(n, DataStep(n), p)
  {
    if n.wire != [] {
      OutcomeOf(n, p);
      R.StepKeepsInv(n.rx, n.wire[0]);
      TakenProgress(n, p, R.Step(n.rx, n.wire[0]).0, R.Step(n.rx, n.wire[0]).1);
    }
  }

  lemma TakenProgress(n: Net, p: seq<u8>, rx: R.View, ev: Event)
    requires Good(n, p) && Outcome(n, p, rx, ev)
    ensures Good(Taken(n, rx, ev), p) && Progress(n, Taken(n, rx, ev), p)
  {
    DataData(n, p, rx, ev);
    if ev == EvSendFc {
      DataGrants(n, p, rx, ev);
    } else {
      DataSilent(n, p, rx, ev);
    }
  }

  lemma FlowProgress(n: Net, p: seq<u8>)
    requires Good(n, p)
    ensures Good(FlowStep(n), p) && Progress(n, FlowStep(n), p)
  {
    if n.back != [] {
      S.FlowKeepsProgress(n.tx, n.back[0], p, n.pumped);
    }
  }

  lemma ActProgress(n: Net, a: Action, p: seq<u8>)
    requires Good(n, p)
    ensures Good(Act(n, a), p) && Progress(n, Act(n, a), p)
  {
    match a
    case Pump => PumpProgress(n, p);
    case DeliverData => DataProgress(n, p);
    case DeliverFlow => FlowProgress(n, p);
  }

  // ------------------------------------------------------------- payloads beyond the limit

  // The receiver refuses the only frame it ever gets. The sender is never cleared, and is told of
  // the overflow only if the caller does so.
  ghost predicate Refused(n: Net, p: seq<u8>) {
    && Wellformed(n)
    && Sendable(p) && |p| > n.rx.cfg.limit
    && S.HasSent(n.tx, p, n.pumped)
    && n.pumped <= 1
    && (n.delivered > 0 ==> n.rx.phase == R.Idle) && n.inbox == []
    && Carries(n.wire, p, n.delivered, n.pumped)
    && |n.back| <= (if n.policy == OnRequest then 0 else n.delivered)
    && n.errors == n.delivered + (if n.policy == OnRequest then 0 else n.delivered - |n.back|)
    && (|p| >= 8 && n.pumped > 0 ==> n.tx.phase == if Told(n) then S.Aborted else S.WaitFc)
    && (|p| >= 8 && n.back != [] ==> n.back[0] == RawFrame(R.FlowControlFrame(n.rx.cfg, FS_OVFLW), CAN_DLC))
  }

  // The overflow frame has come back.
  predicate Told(n: Net) { n.policy == AlsoOnOverflow && n.delivered == 1 && n.back == [] }

  lemma StartRefused(p: seq<u8>, rx: R.View, policy: Policy)
    requires Sendable(p) && R.Inv(rx) && |p| > rx.cfg.limit
    ensures Refused(Start(p, rx, policy), p)
  {
  }

  lemma PumpRefused(n: Net, p: seq<u8>)
    requires Refused(n, p)
    ensures Refused(PumpStep(n), p) && Progress(n, PumpStep(n), p)
    ensures PumpStep(n) == n <==> n.tx.phase != S.Idle
  {
    S.NextSendsNextFrame(n.tx, p, n.pumped);
  }

  lemma TooLongRefused(s: R.View, p: seq<u8>)
    requires R.Inv(s) && Sendable(p) && |p| > s.cfg.limit
    ensures var (s1, ev) := R.Step(s, FrameAt(p, 0));
            && s1.phase == R.Idle && s1.cfg == s.cfg && ev == EvErrOverflow
            && (|p| >= 8 ==> s1.fc == R.FlowControlFrame(s.cfg, FS_OVFLW))
  {
    FrameShape(p, 0);
  }

  lemma DataRefused(n: Net, p: seq<u8>)
    requires Refused(n, p)
    ensures Refused(DataStep(n), p) && Progress(n, DataStep(n), p)
    ensures DataStep(n) == n <==> n.wire == []
  {
    if n.wire != [] {
      CarriesLess(n.wire, p, n.delivered, n.pumped);
      TooLongRefused(n.rx, p);
      R.StepKeepsInv(n.rx, n.wire[0]);
      assert DataStep(n).delivered == n.delivered + 1;
    }
  }

  lemma FlowRefused(n: Net, p: seq<u8>)
    requires Refused(n, p)
    ensures Refused(FlowStep(n), p) && Progress(n, FlowStep(n), p)
    ensures FlowStep(n) == n <==> n.back == []
  {
    if n.back != [] {
      S.FlowKeepsProgress(n.tx, n.back[0], p, n.pumped);
      assert |FlowStep(n).back| < |n.back|;
    }
  }

  // ------------------------------------------------------------- every run of either kind

  ghost predicate Kept(n: Net, p: seq<u8>) { Good(n, p) || Refused(n, p) }

  lemma StartKept(p: seq<u8>, rx: R.View, policy: Policy)
    requires Sendable(p) && R.Inv(rx)
    ensures Kept(Start(p, rx, policy), p)
  {
    if |p| <= rx.cfg.limit {
      StartGood(p, rx, policy);
    } else {
      StartRefused(p, rx, policy);
    }
  }

  lemma ActKept(n: Net, a: Action, p: seq<u8>)
    requires Kept(n, p)
    ensures Kept(Act(n, a), p) && Progress(n, Act(n, a), p)
  {
    if Good(n, p) {
      ActProgress(n, a, p);
    } else {
      match a
      case Pump => PumpRefused(n, p);
      case DeliverData => DataRefused(n, p);
      case DeliverFlow => FlowRefused(n, p);
    }
  }

  lemma {:induction false} RunKept(n: Net, schedule: seq<Action>, p: seq<u8>)
    requires Kept(n, p)
    ensures Kept(Run(n, schedule), p)
    ensures Run(n, schedule).rx.cfg == n.rx.cfg && Run(n, schedule).policy == n.policy
    ensures Work(Run(n, schedule), p) + Changes(n, schedule) <= Work(n, p)
    decreases |schedule|
  {
    if schedule != [] {
      ActKept(n, schedule[0], p);
      RunKept(Act(n, schedule[0]), schedule[1..], p);
    }
  }

  // ------------------------------------------------------------- safety, over every run

  /** Under any schedule, to a receiver in any state, even one left collecting another transfer: no
      error on either side, what the receiver holds from the first frame on is a prefix of the
      payload, at most one grant is on its way and then only to a sender that must wait for it and
      whose frames have all arrived, and the payload is reported once or not yet. */
  lemma AnyScheduleIsSafe(p: seq<u8>, rx: R.View, policy: Policy, schedule: seq<Action>)
    requires Sendable(p) && R.Inv(rx) && |p| <= rx.cfg.limit
    ensures var n := Run(Start(p, rx, policy), schedule);
            && n.errors == 0
            && (n.delivered > 0 && n.rx.phase == R.WaitCf ==> n.rx.content <= p)
            && |n.back| <= 1
            && (n.back != [] ==> n.wire == [] && S.Next(n.tx).1 == None && n.tx.phase != S.Done)
            && (n.inbox == [] || n.inbox == [p])
            && (n.inbox == [p] <==> n.delivered == FrameCount(|p|))
  {
    StartKept(p, rx, policy);
    RunKept(Start(p, rx, policy), schedule, p);
  }

  // ------------------------------------------------------------- progress and termination

  predicate Enabled(n: Net, a: Action)
    requires Wellformed(n)
  {
    Act(n, a) != n
  }

  ghost predicate Stuck(n: Net)
    requires Wellformed(n)
  {
    forall a :: !Enabled(n, a)
  }

  // How many actions of a schedule change anything.
  function Changes(n: Net, schedule: seq<Action>): nat
    requires Wellformed(n)
    decreases |schedule|
  {
    if schedule == [] then 0
    else (if Enabled(n, schedule[0]) then 1 else 0) + Changes(Act(n, schedule[0]), schedule[1..])
  }

  /** No deadlock: until the message is reported some action is enabled, and then none is. */
  lemma StuckIffReported(n: Net, p: seq<u8>)
    requires Good(n, p)
    ensures Stuck(n) <==> n.inbox == [p]
  {
    PumpData(n, p);
    if n.inbox == [p] {
      assert n.wire == [] && n.back == [];
    } else if n.wire != [] {
      assert DataStep(n).delivered != n.delivered;
      assert Enabled(n, DeliverData);
    } else if n.back != [] {
      assert |FlowStep(n).back| < |n.back|;
      assert Enabled(n, DeliverFlow);
    } else {
      assert n.tx.phase == S.Idle || n.tx.phase == S.Sending;
      assert Enabled(n, Pump);
    }
  }

  // With a payload beyond the limit, nothing is enabled once its only frame and any answer to it
  // have arrived.
  lemma StuckIffRefused(n: Net, p: seq<u8>)
    requires Refused(n, p)
    ensures Stuck(n) <==> n.tx.phase != S.Idle && n.wire == [] && n.back == []
  {
    PumpRefused(n, p);
    DataRefused(n, p);
    FlowRefused(n, p);
    if Stuck(n) {
      assert !Enabled(n, Pump) && !Enabled(n, DeliverData) && !Enabled(n, DeliverFlow);
    } else {
      var a :| Enabled(n, a);
      assert a == Pump || a == DeliverData || a == DeliverFlow;
    }
  }

  /** Every run ends: no schedule, however long, contains more than four changes for each
      frame of the segmentation. */
  lemma RunsAreShort(p: seq<u8>, rx: R.View, policy: Policy, schedule: seq<Action>)
    requires Sendable(p) && R.Inv(rx)
    ensures Changes(Start(p, rx, policy), schedule) <= 4 * FrameCount(|p|)
  {
    StartKept(p, rx, policy);
    RunKept(Start(p, rx, policy), schedule, p);
  }

  // A schedule that changes nothing tried only actions that were not enabled.
  lemma {:induction false} NoChange(n: Net, schedule: seq<Action>)
    requires Wellformed(n) && Changes(n, schedule) == 0
    ensures Run(n, schedule) == n
    ensures forall a | a in schedule :: !Enabled(n, a)
    decreases |schedule|
  {
    if schedule != [] {
      NoChange(n, schedule[1..]);
    }
  }

  // A round of a fair schedule tries every action, in any order and any number of times.
  predicate Fair(round: seq<Action>) { Pump in round && DeliverData in round && DeliverFlow in round }

  predicate AllFair(rounds: seq<seq<Action>>) { forall i | 0 <= i < |rounds| :: Fair(rounds[i]) }

  lemma FairRoundProgress(n: Net, round: seq<Action>, p: seq<u8>)
    requires Kept(n, p) && Fair(round)
    ensures Stuck(n) || Work(Run(n, round), p) < Work(n, p)
  {
    RunKept(n, round, p);
    if Changes(n, round) == 0 {
      NoChange(n, round);
      forall a: Action
        ensures !Enabled(n, a)
      {
        assert a in round by { assert a == Pump || a == DeliverData || a == DeliverFlow; }
      }
    }
  }

  function RunRounds(n: Net, rounds: seq<seq<Action>>): (n1: Net)
    requires Wellformed(n)
    ensures Wellformed(n1)
    decreases |rounds|
  {
    if rounds == [] then n else RunRounds(Run(n, rounds[0]), rounds[1..])
  }

  lemma {:induction false} StuckRun(n: Net, schedule: seq<Action>)
    requires Wellformed(n) && Stuck(n)
    ensures Run(n, schedule) == n
    decreases |schedule|
  {
    if schedule != [] {
      assert !Enabled(n, schedule[0]);
      StuckRun(n, schedule[1..]);
    }
  }

  lemma {:induction false} StuckRounds(n: Net, rounds: seq<seq<Action>>)
    requires Wellformed(n) && Stuck(n)
    ensures RunRounds(n, rounds) == n
    decreases |rounds|
  {
    if rounds != [] {
      StuckRun(n, rounds[0]);
      StuckRounds(n, rounds[1..]);
    }
  }

  lemma NoWorkStuck(n: Net, p: seq<u8>)
    requires Kept(n, p) && Work(n, p) <= 0
    ensures Stuck(n)
  {
    forall a: Action
      ensures !Enabled(n, a)
    {
      ActKept(n, a, p);
      WorkIsNat(n, p);
      WorkIsNat(Act(n, a), p);
    }
  }

  lemma WorkIsNat(n: Net, p: seq<u8>)
    requires Kept(n, p)
    ensures Work(n, p) >= 0
  {
  }

  /** Every fair run, from wherever a transfer may be, comes to a standstill. */
  lemma {:induction false} FairRunsEnd(n: Net, rounds: seq<seq<Action>>, p: seq<u8>)
    requires Kept(n, p) && AllFair(rounds) && |rounds| >= Work(n, p)
    ensures var n1 := RunRounds(n, rounds);
            Kept(n1, p) && Stuck(n1) && n1.rx.cfg == n.rx.cfg && n1.policy == n.policy
    decreases |rounds|
  {
    if Stuck(n) {
      StuckRounds(n, rounds);
    } else {
      if rounds == [] {
        NoWorkStuck(n, p);
      }
      RunKept(n, rounds[0], p);
      FairRoundProgress(n, rounds[0], p);
      FairRunsEnd(Run(n, rounds[0]), rounds[1..], p);
    }
  }

  // ------------------------------------------------------------- how transfers end

  // The sender's last state.
  function LastPhase(n: nat, limit: nat, policy: Policy): S.Phase {
    if n <= limit || n <= 7 then S.Done
    else if policy == AlsoOnOverflow then S.Aborted
    else S.WaitFc
  }

  /** After enough fair rounds the payload has been reported, once and unchanged, exactly when it fits
      the receiver's limit; nothing is on its way and the receiver is idle again. The sender is done
      exactly when the payload fits or went out as a single frame; otherwise it was told of the overflow
      and has aborted, or it was not told and waits. If it does not fit the receiver's caller is told of
      an error, and the sender's too if the overflow frame is sent. */
  lemma TransferEnds(p: seq<u8>, rx: R.View, policy: Policy, rounds: seq<seq<Action>>)
    requires Sendable(p) && R.Inv(rx)
    requires |rounds| >= 4 * FrameCount(|p|) && AllFair(rounds)
    ensures var n := RunRounds(Start(p, rx, policy), rounds);
            && n.inbox == (if |p| <= rx.cfg.limit then [p] else [])
            && n.tx.phase == LastPhase(|p|, rx.cfg.limit, policy)
            && n.wire == [] && n.back == []
            && n.rx.phase == R.Idle && n.rx.cfg == rx.cfg
            && n.errors == if |p| <= rx.cfg.limit then 0 else if policy == OnRequest then 1 else 2
  {
    var n0 := Start(p, rx, policy);
    StartKept(p, rx, policy);
    FairRunsEnd(n0, rounds, p);
    var n := RunRounds(n0, rounds);
    if |p| <= rx.cfg.limit {
      StuckIffReported(n, p);
    } else {
      StuckIffRefused(n, p);
    }
  }

  /** So a receiver that was initialised with a limit, and then fed any frames, reports exactly the
      payloads of at most that many bytes. */
  lemma AskedLimitDecides(p: seq<u8>, cfg: R.Config, past: seq<Frame>, policy: Policy, rounds: seq<seq<Action>>)
    requires 1 <= |p| <= 4095
    requires |rounds| >= 4 * FrameCount(|p|) && AllFair(rounds)
    ensures var n := RunRounds(Start(p, H.Run(cfg, past), policy), rounds);
            n.inbox == (if |p| <= cfg.limit then [p] else []) && n.tx.phase == LastPhase(|p|, cfg.limit, policy)
  {
    TransferEnds(p, H.Run(cfg, past), policy, rounds);
  }

  /** A caller that sends the flow-control frame only when asked leaves the sender of an oversized
      payload waiting, under every schedule. */
  lemma OverflowLeavesSenderWaiting(p: seq<u8>, rx: R.View, schedule: seq<Action>)
    requires Sendable(p) && R.Inv(rx) && |p| >= 8 && |p| > rx.cfg.limit
    ensures var n := Run(Start(p, rx, OnRequest), schedule);
            (n.tx.phase == S.Idle || n.tx.phase == S.WaitFc) && n.back == [] && n.inbox == []
  {
    StartRefused(p, rx, OnRequest);
    RunKept(Start(p, rx, OnRequest), schedule, p);
  }

  // ------------------------------------------------------------- one transfer after another

  predicate AllSendable(ps: seq<seq<u8>>) { forall i | 0 <= i < |ps| :: Sendable(ps[i]) }

  // The receiver after a number of transfers, each run by its own schedule, and all it reported.
  function Transfers(ps: seq<seq<u8>>, rx: R.View, policy: Policy, plans: seq<seq<seq<Action>>>): (R.View, seq<seq<u8>>)
    requires R.Inv(rx) && |plans| == |ps| && AllSendable(ps)
    decreases |ps|
  {
    if ps == [] then (rx, [])
    else
      var n := RunRounds(Start(ps[0], rx, policy), plans[0]);
      var (last, rest) := Transfers(ps[1..], n.rx, policy, plans[1..]);
      (last, n.inbox + rest)
  }

  function Fitting(ps: seq<seq<u8>>, limit: nat): seq<seq<u8>> {
    if ps == [] then [] else (if |ps[0]| <= limit then [ps[0]] else []) + Fitting(ps[1..], limit)
  }

  predicate LongEnough(ps: seq<seq<u8>>, plans: seq<seq<seq<Action>>>)
    requires |plans| == |ps|
  {
    forall i | 0 <= i < |ps| :: Sendable(ps[i]) && AllFair(plans[i]) && |plans[i]| >= 4 * FrameCount(|ps[i]|)
  }

  /** Any number of transfers, one after another: exactly those that fit are reported, each once and
      unchanged, in order, whatever the oversized ones between them do. */
  lemma {:induction false} TransfersDeliver(ps: seq<seq<u8>>, rx: R.View, policy: Policy, plans: seq<seq<seq<Action>>>)
    requires R.Inv(rx) && |plans| == |ps| && AllSendable(ps)
    requires LongEnough(ps, plans)
    ensures ps != [] ==> Transfers(ps, rx, policy, plans).0.phase == R.Idle
    ensures Transfers(ps, rx, policy, plans).1 == Fitting(ps, rx.cfg.limit)
    decreases |ps|
  {
    if ps != [] {
      TransferEnds(ps[0], rx, policy, plans[0]);
      TransfersDeliver(ps[1..], RunRounds(Start(ps[0], rx, policy), plans[0]).rx, policy, plans[1..]);
    }
  }
}
