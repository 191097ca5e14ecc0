/** The whole engine as two threads: the WebSocket callback pushing into the ring, the feature
    loop popping from it, their counters, and shutdown, one atomic step at a time. */
module EngineProtocol {

  import opened Bits
  import opened Ticks
  import opened Wrappers
  import opened Engine
  import RP = RingProtocol
  import RR = RingRuns

  datatype State = State(
    ring: RP.State<Tick>,
    parsed: nat,              // ticks the callback got from the parser
    pushed: nat,
    dropped: nat,
    popped: nat,
    emitted: nat,             // frames the broker accepted
    shutdown: bool,
    producerDone: bool,
    consumerDone: bool,
    handling: Option<Tick>,   // the tick in the consumer's loop body
    consumer: Consumer,
    accepted: seq<Tick>,      // history: the ticks whose push succeeded
    processed: seq<Tick>)     // history: the ticks the loop body has finished

  datatype Step =
    | Parse(tick: Tick)               // the callback starts a push
    | Inside(step: RP.Step<Tick>)     // either thread, inside a ring call
    | CountOutcome                    // pushed or dropped is incremented
    | ProducerExit
    | Signal                          // the shutdown flag is raised
    | Poll                            // the loop read the flag as down, perhaps late, and starts a pop
    | Yield                           // the pop found nothing
    | CountPop                        // popped is incremented
    | Process(accepted: bool)         // the loop body; the broker's answer is arbitrary
    | ConsumerExit

  ghost predicate Initial(cfg: Config, s: State) {
    && RP.Initial(s.ring)
    && s.parsed == s.pushed == s.dropped == s.popped == s.emitted == 0
    && !s.shutdown && !s.producerDone && !s.consumerDone && s.handling.None?
    && s.consumer == NewConsumer(cfg)
    && s.accepted == s.processed == []
  }

  predicate InsideCall(step: RP.Step<Tick>) {
    step.LoadHead? || step.WriteSlot? || step.StoreTail? || step.LoadTail? || step.ReadSlot? || step.StoreHead?
  }

  ghost predicate Enabled(cfg: Config, s: State, step: Step) {
    && RP.WellFormed(s.ring) && Shape(cfg, s.consumer)
    && match step
       case Parse(_) => s.ring.ppc.PIdle? && !s.producerDone
       case Inside(r) => InsideCall(r) && RP.Enabled(s.ring, r)
       case CountOutcome => s.ring.ppc.PDone?
       case ProducerExit => s.ring.ppc.PIdle? && !s.producerDone
       case Signal => true
       case Poll => s.ring.cpc.CIdle? && s.handling.None? && !s.consumerDone
       case Yield => s.ring.cpc.CDone? && s.ring.cpc.result.None?
       case CountPop => s.ring.cpc.CDone? && s.ring.cpc.result.Some?
       case Process(_) => s.handling.Some?
       case ConsumerExit => s.ring.cpc.CIdle? && s.handling.None? && !s.consumerDone && s.shutdown
  }

  ghost function Apply(cfg: Config, s: State, step: Step): State
    requires Enabled(cfg, s, step)
  {
    match step
    case Parse(t) => s.(ring := RP.Apply(s.ring, RP.BeginPush(t)), parsed := s.parsed + 1)
    case Inside(r) =>
      s.(ring := RP.Apply(s.ring, r),
         accepted := if r.StoreTail? then s.accepted + [s.ring.ppc.value] else s.accepted)
    case CountOutcome =>
      if s.ring.ppc.ok then s.(ring := RP.Apply(s.ring, RP.EndPush), pushed := s.pushed + 1)
      else s.(ring := RP.Apply(s.ring, RP.EndPush), dropped := s.dropped + 1)
    case ProducerExit => s.(producerDone := true)
    case Signal => s.(shutdown := true)
    case Poll => s.(ring := RP.Apply(s.ring, RP.BeginPop))
    case Yield => s.(ring := RP.Apply(s.ring, RP.EndPop))
    case CountPop =>
      s.(ring := RP.Apply(s.ring, RP.EndPop), popped := s.popped + 1, handling := s.ring.cpc.result)
    case Process(ok) =>
      var c := Consume(cfg, s.consumer, s.handling.value);
      s.(handling := None, consumer := c, processed := s.processed + [s.handling.value],
         emitted := s.emitted + (if |c.frames| > |s.consumer.frames| && ok then 1 else 0))
    case ConsumerExit => s.(consumerDone := true)
  }

  // ----- The invariant -----

  /** Popped from the ring but not yet through the loop body. */
  ghost function InHand(s: State): seq<Tick> {
    if s.ring.cpc.CDone? && s.ring.cpc.result.Some? then [s.ring.cpc.result.value]
    else if s.handling.Some? then [s.handling.value]
    else []
  }

  /** A push that is published but not yet counted. */
  ghost function UncountedPush(s: State): nat {
    if s.ring.ppc.PDone? && s.ring.ppc.ok then 1 else 0
  }

  /** A pop that is complete but not yet counted. */
  ghost function UncountedPop(s: State): nat {
    if s.ring.cpc.CDone? && s.ring.cpc.result.Some? then 1 else 0
  }

  ghost predicate Counters(s: State)
    requires RP.WellFormed(s.ring)
  {
    && s.pushed + UncountedPush(s) == |s.accepted|
    && s.popped + UncountedPop(s) == |s.processed| + |InHand(s)|
    && s.parsed == s.pushed + s.dropped + (if s.ring.ppc.PIdle? then 0 else 1)
  }

  ghost predicate Threads(s: State) {
    && (s.handling.Some? ==> s.ring.cpc.CIdle?)
    && (s.producerDone ==> s.ring.ppc.PIdle?)
    && (s.consumerDone ==> s.ring.cpc.CIdle? && s.handling.None? && s.shutdown)
  }

  ghost predicate Inv(cfg: Config, s: State) {
    && RP.Inv(s.ring) && Threads(s) && Counters(s)
    && s.accepted == s.processed + InHand(s) + RP.Queue(s.ring)
    && s.consumer == ConsumerAfter(cfg, s.processed)
    && s.emitted <= |s.consumer.frames|
  }

  lemma {:induction false} InitialInv(cfg: Config, s: State)
    requires Initial(cfg, s)
    ensures Inv(cfg, s)
  {
    RP.InitialInv(s.ring);
  }

  /** What a ring step changes outside the ring's own bookkeeping. */
  lemma {:induction false} RingStepOutline(r: RP.State<Tick>, step: RP.Step<Tick>)
    requires RP.Inv(r) && RP.Enabled(r, step)
    ensures var r' := RP.Apply(r, step);
            && RP.Inv(r')
            && (RR.IsProducerStep(step) ==> r'.cpc == r.cpc)
            && (!RR.IsProducerStep(step) ==> r'.ppc == r.ppc)
            && (!step.StoreTail? && !step.StoreHead? ==> RP.Queue(r') == RP.Queue(r))
  {
    RP.StepInv(r, step);
    RR.StepRefinesQueue(r, step);
  }

  lemma {:induction false} StoreTailStep(cfg: Config, s: State)
    requires Inv(cfg, s) && Enabled(cfg, s, Inside(RP.StoreTail))
    ensures Inv(cfg, Apply(cfg, s, Inside(RP.StoreTail)))
  {
    hide RP.Indices, RP.ProducerInv, RP.ConsumerInv, RP.Clocks;
    RingStepOutline(s.ring, RP.StoreTail);
    RR.StoreTailEnqueues(s.ring);
    var v := s.ring.ppc.value;
    assert s.processed + InHand(s) + RP.Queue(s.ring) + [v] == s.processed + InHand(s) + (RP.Queue(s.ring) + [v]);
  }

  lemma {:induction false} StoreHeadOutline(r: RP.State<Tick>)
    requires RP.Inv(r) && RP.Enabled(r, RP.StoreHead)
    ensures var r' := RP.Apply(r, RP.StoreHead);
            RP.Inv(r') && r'.ppc == r.ppc && r'.cpc == RP.CDone(Some(r.cpc.value)) && RP.Queue(r) == [r.cpc.value] + RP.Queue(r')
  {
    RingStepOutline(r, RP.StoreHead);
    RR.StoreHeadDequeues(r);
  }

  lemma {:induction false} StoreHeadStep(cfg: Config, s: State)
    requires Inv(cfg, s) && Enabled(cfg, s, Inside(RP.StoreHead))
    ensures Inv(cfg, Apply(cfg, s, Inside(RP.StoreHead)))
  {
    hide RP.Indices, RP.ProducerInv, RP.ConsumerInv, RP.Clocks;
    StoreHeadOutline(s.ring);
    var v, q := s.ring.cpc.value, RP.Queue(RP.Apply(s.ring, RP.StoreHead));
    assert InHand(s) == [];
    assert s.processed + [] + ([v] + q) == s.processed + [v] + q;
  }

  lemma {:induction false} OtherProducerStep(cfg: Config, s: State, r: RP.Step<Tick>)
    requires Inv(cfg, s) && Enabled(cfg, s, Inside(r)) && (r.LoadHead? || r.WriteSlot?)
    ensures Inv(cfg, Apply(cfg, s, Inside(r)))
  {
    hide RP.Indices, RP.ProducerInv, RP.ConsumerInv, RP.Clocks;
    RingStepOutline(s.ring, r);
    assert InHand(Apply(cfg, s, Inside(r))) == InHand(s);
  }

  lemma {:induction false} OtherConsumerStep(cfg: Config, s: State, r: RP.Step<Tick>)
    requires Inv(cfg, s) && Enabled(cfg, s, Inside(r)) && (r.LoadTail? || r.ReadSlot?)
    ensures Inv(cfg, Apply(cfg, s, Inside(r)))
  {
    hide RP.Indices, RP.ProducerInv, RP.ConsumerInv, RP.Clocks;
    RingStepOutline(s.ring, r);
    assert InHand(Apply(cfg, s, Inside(r))) == InHand(s) == [];
  }

  lemma {:induction false} ProcessStep(cfg: Config, s: State, ok: bool)
    requires Inv(cfg, s) && Enabled(cfg, s, Process(ok))
    ensures Inv(cfg, Apply(cfg, s, Process(ok)))
  {
    hide RP.Indices, RP.ProducerInv, RP.ConsumerInv, RP.Clocks;
    var t := s.handling.value;
    var more := s.processed + [t];
    assert more[..|more| - 1] == s.processed;
    assert s.processed + [t] + RP.Queue(s.ring) == more + [] + RP.Queue(s.ring);
  }

  lemma {:induction false} ParseStep(cfg: Config, s: State, t: Tick)
    requires Inv(cfg, s) && Enabled(cfg, s, Parse(t))
    ensures Inv(cfg, Apply(cfg, s, Parse(t)))
  {
    hide RP.Indices, RP.ProducerInv, RP.ConsumerInv, RP.Clocks;
    RingStepOutline(s.ring, RP.BeginPush(t));
  }

  lemma {:induction false} CountOutcomeStep(cfg: Config, s: State)
    requires Inv(cfg, s) && Enabled(cfg, s, CountOutcome)
    ensures Inv(cfg, Apply(cfg, s, CountOutcome))
  {
    hide RP.Indices, RP.ProducerInv, RP.ConsumerInv, RP.Clocks;
    RingStepOutline(s.ring, RP.EndPush);
  }

  lemma {:induction false} ConsumerStep(cfg: Config, s: State, step: Step)
    requires Inv(cfg, s) && Enabled(cfg, s, step) && (step.Poll? || step.Yield? || step.CountPop?)
    ensures Inv(cfg, Apply(cfg, s, step))
  {
    hide RP.Indices, RP.ProducerInv, RP.ConsumerInv, RP.Clocks;
    match step
    case Poll => RingStepOutline(s.ring, RP.BeginPop);
    case Yield => RingStepOutline(s.ring, RP.EndPop);
    case CountPop => RingStepOutline(s.ring, RP.EndPop);
  }

  /** Every step of the engine keeps the invariant. */
  lemma {:induction false} StepInv(cfg: Config, s: State, step: Step)
    requires Inv(cfg, s) && Enabled(cfg, s, step)
    ensures Inv(cfg, Apply(cfg, s, step))
  {
    match step
    case Inside(r) =>
      if r.StoreTail? {
        StoreTailStep(cfg, s);
      } else if r.StoreHead? {
        StoreHeadStep(cfg, s);
      } else if r.LoadHead? || r.WriteSlot? {
        OtherProducerStep(cfg, s, r);
      } else {
        OtherConsumerStep(cfg, s, r);
      }
    case Process(ok) => ProcessStep(cfg, s, ok);
    case Parse(t) => ParseStep(cfg, s, t);
    case CountOutcome => CountOutcomeStep(cfg, s);
    case Poll => ConsumerStep(cfg, s, step);
    case Yield => ConsumerStep(cfg, s, step);
    case CountPop => ConsumerStep(cfg, s, step);
    case _ =>
  }

  // ----- Whole runs -----

  ghost predicate Runnable(cfg: Config, s: State, steps: seq<Step>)
    decreases |steps|
  {
    steps == [] || (Enabled(cfg, s, steps[0]) && Runnable(cfg, Apply(cfg, s, steps[0]), steps[1..]))
  }

  ghost function Run(cfg: Config, s: State, steps: seq<Step>): State
    requires Runnable(cfg, s, steps)
    decreases |steps|
  {
    if steps == [] then s else Run(cfg, Apply(cfg, s, steps[0]), steps[1..])
  }

  lemma {:induction false} RunInv(cfg: Config, s: State, steps: seq<Step>)
    requires Inv(cfg, s) && Runnable(cfg, s, steps)
    ensures Inv(cfg, Run(cfg, s, steps))
    decreases |steps|
  {
    if steps != [] {
      StepInv(cfg, s, steps[0]);
      RunInv(cfg, Apply(cfg, s, steps[0]), steps[1..]);
    }
  }

  /** Conservation in every reachable state: what was pushed is popped or still in the ring, up
      to the counts not yet made, so at no time has more been popped than pushed plus one. */
  lemma {:induction false} TicksConserved(cfg: Config, s: State, steps: seq<Step>)
    requires Initial(cfg, s) && Runnable(cfg, s, steps)
    ensures var r := Run(cfg, s, steps);
            && RP.WellFormed(r.ring)
            && r.pushed + UncountedPush(r) == r.popped + UncountedPop(r) + |RP.Queue(r.ring)|
            && r.popped <= r.pushed + 1
            && r.pushed + r.dropped <= r.parsed <= r.pushed + r.dropped + 1
  {
    InitialInv(cfg, s);
    RunInv(cfg, s, steps);
  }

  /** After both threads have joined the printed counters balance exactly: ticks parsed are
      pushed or dropped, and ticks pushed are popped or left undrained in the ring. */
  lemma {:induction false} JoinedCounters(cfg: Config, s: State, steps: seq<Step>)
    requires Initial(cfg, s) && Runnable(cfg, s, steps)
    requires Run(cfg, s, steps).producerDone && Run(cfg, s, steps).consumerDone
    ensures var r := Run(cfg, s, steps);
            && RP.WellFormed(r.ring)
            && r.parsed == r.pushed + r.dropped
            && r.pushed == r.popped + |RP.Queue(r.ring)|
            && r.accepted == r.processed + RP.Queue(r.ring)
            && r.popped == |r.processed|
            && r.shutdown
  {
    InitialInv(cfg, s);
    RunInv(cfg, s, steps);
    var r := Run(cfg, s, steps);
    assert r.processed + [] == r.processed;
  }

  /** End-to-end determinism: in every reachable state of every run, the k-th frame carries the
      naive features of the first (k + 1) intervals of accepted ticks, and the number built is
      the number of ticks processed divided by the interval. */
  lemma {:induction false} FramesAreDeterministic(cfg: Config, s: State, steps: seq<Step>)
    requires Initial(cfg, s) && Runnable(cfg, s, steps)
    ensures var r := Run(cfg, s, steps);
            && r.processed <= r.accepted
            && FramesOf(cfg, r.accepted, r.consumer.frames)
            && |r.consumer.frames| == |r.processed| / cfg.Interval()
            && r.popped - 1 <= |r.processed| <= r.popped
            && r.emitted <= |r.consumer.frames|
  {
    hide FramesOf, Cadence, Initial, RP.Indices, RP.ProducerInv, RP.ConsumerInv, RP.Clocks;
    InitialInv(cfg, s);
    RunInv(cfg, s, steps);
    var r := Run(cfg, s, steps);
    FramesDetermined(cfg, r.processed);
    FrameCount(cfg, r.processed);
    assert r.processed + InHand(r) + RP.Queue(r.ring) == r.processed + (InHand(r) + RP.Queue(r.ring));
    FramesOfPrefix(cfg, r.processed, r.accepted, r.consumer.frames);
  }

  /** What the run shows of the frames that got through: the loop bodies that complete an interval
      and whose frame the broker takes, `n` ticks having been processed before. */
  function Sent(interval: nat, steps: seq<Step>, n: nat): nat
    requires interval > 0
    decreases |steps|
  {
    if steps == [] then 0
    else if !steps[0].Process? then Sent(interval, steps[1..], n)
    else (if (n + 1) % interval == 0 && steps[0].accepted then 1 else 0) + Sent(interval, steps[1..], n + 1)
  }

  lemma {:induction false} NextQuotient(n: nat, k: nat)
    requires k > 0
    ensures (n + 1) / k == if (n + 1) % k == 0 then n / k + 1 else n / k
  {
    var q, r := n / k, n % k;
    assert k * (q + 1) == k * q + k;
    if r + 1 < k {
      ModUnique(n + 1, q, r + 1, k);
    } else {
      ModUnique(n + 1, q + 1, 0, k);
    }
  }

  lemma {:induction false} EmittedStep(cfg: Config, s: State, step: Step)
    requires Inv(cfg, s) && Enabled(cfg, s, step)
    ensures var s' := Apply(cfg, s, step);
            && |s'.processed| == |s.processed| + (if step.Process? then 1 else 0)
            && s'.emitted == s.emitted
                             + (if step.Process? && step.accepted && (|s.processed| + 1) % cfg.Interval() == 0 then 1 else 0)
  {
    hide RP.Inv, RP.WellFormed, RP.Enabled, RP.Apply, ConsumerAfter, Consume;
    if step.Process? {
      var t := s.handling.value;
      AfterSnoc(cfg, s.processed, t);
      FrameCount(cfg, s.processed);
      FrameCount(cfg, s.processed + [t]);
      NextQuotient(|s.processed|, cfg.Interval());
    }
  }

  lemma {:induction false} EmittedOverRun(cfg: Config, s: State, steps: seq<Step>)
    requires Inv(cfg, s) && Runnable(cfg, s, steps)
    ensures Run(cfg, s, steps).emitted == s.emitted + Sent(cfg.Interval(), steps, |s.processed|)
    decreases |steps|
  {
    hide Inv, Enabled, Apply;
    if steps != [] {
      StepInv(cfg, s, steps[0]);
      EmittedStep(cfg, s, steps[0]);
      EmittedOverRun(cfg, Apply(cfg, s, steps[0]), steps[1..]);
    }
  }

  /** The frame counter, exactly, over every run: one for each loop body that completes an interval
      of ticks and whose frame the broker takes. */
  lemma {:induction false} EmittedExactly(cfg: Config, s: State, steps: seq<Step>)
    requires Initial(cfg, s) && Runnable(cfg, s, steps)
    ensures Run(cfg, s, steps).emitted == Sent(cfg.Interval(), steps, 0)
  {
    InitialInv(cfg, s);
    EmittedOverRun(cfg, s, steps);
  }

  /** As far as both go, the first `m` ticks are the same. */
  ghost predicate SameFirst(a: seq<Tick>, b: seq<Tick>, m: nat) {
    forall i :: 0 <= i < m && i < |a| && i < |b| ==> a[i] == b[i]
  }

  /** Two runs, under any two clocks, that accepted the same first (k + 1) intervals of ticks agree
      on the k-th frame up to its compute stamp, whatever their interleavings, stale loads, drops
      and broker answers, and whatever they accepted afterwards. */
  lemma {:induction false} RunsAgree(cfg: Config, clock: nat -> int64, s: State, a: seq<Step>, z: State, b: seq<Step>, k: nat)
    requires Initial(cfg, s) && Runnable(cfg, s, a)
    requires var other := cfg.(clock := clock); Initial(other, z) && Runnable(other, z, b)
    requires var x, y := Run(cfg, s, a), Run(cfg.(clock := clock), z, b);
             k < |x.consumer.frames| && k < |y.consumer.frames|
             && SameFirst(x.accepted, y.accepted, (k + 1) * cfg.Interval())
    ensures var x, y := Run(cfg, s, a), Run(cfg.(clock := clock), z, b);
            x.consumer.frames[k].(computeTs := 0) == y.consumer.frames[k].(computeTs := 0)
  {
    var other, m := cfg.(clock := clock), (k + 1) * cfg.Interval();
    FramesAreDeterministic(cfg, s, a);
    FramesAreDeterministic(other, z, b);
    var x, y := Run(cfg, s, a), Run(other, z, b);
    assert IsFrame(cfg, x.accepted, k, x.consumer.frames[k]) && IsFrame(other, y.accepted, k, y.consumer.frames[k]);
    assert x.accepted[..m] == y.accepted[..m];
    ClockOnly(cfg, clock, x.accepted[..m], k);
  }
}
