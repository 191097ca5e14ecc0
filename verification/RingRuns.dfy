/** What the steps of the two threads add up to: refinement of a bounded queue, absence of data
    races, safety over every run, and bounded waiting. */
module RingRuns {

  import opened RingProtocol
  import opened RingView

  lemma {:induction false} QueueLength<T>(s: State<T>)
    requires Inv(s)
    ensures |Queue(s)| == Pushes(s) - Pops(s)
  {
    var n := |s.buf|;
    SlotDistance(Pops(s), Pushes(s), n);
    ViewLength(s.buf, Slot(Pops(s), n), Slot(Pushes(s), n));
  }

  lemma {:induction false} StoreTailEnqueues<T>(s: State<T>)
    requires Inv(s) && Enabled(s, StoreTail)
    ensures |Queue(s)| < |s.buf| - 1
    ensures Queue(Apply(s, StoreTail)) == Queue(s) + [s.ppc.value]
  {
    hide Clocks;
    var h, t := Last(s.heads).index, Last(s.tails).index;
    FullTest(Pushes(s), Pops(s), |s.buf|);
    SlotSucc(Pushes(s), |s.buf|);
    ViewLength(s.buf, h, t);
    PushView(s.buf, h, t, s.ppc.value);
    assert s.buf[t := s.ppc.value] == s.buf;
    assert Last(Apply(s, StoreTail).tails).index == Succ(t, |s.buf|);
  }

  lemma {:induction false} StoreHeadDequeues<T>(s: State<T>)
    requires Inv(s) && Enabled(s, StoreHead)
    ensures Queue(s) == [s.cpc.value] + Queue(Apply(s, StoreHead))
  {
    hide Clocks;
    var h, t := Last(s.heads).index, Last(s.tails).index;
    EmptyTest(Pushes(s), Pops(s), |s.buf|);
    PopView(s.buf, h, t);
    var q := View(s.buf, h, t);
    assert q == [q[0]] + q[1..];
    assert Last(Apply(s, StoreHead).heads).index == Succ(h, |s.buf|);
  }

  lemma {:induction false} WriteIsHidden<T>(s: State<T>)
    requires Inv(s) && Enabled(s, WriteSlot)
    ensures Queue(Apply(s, WriteSlot)) == Queue(s)
  {
    hide Clocks;
    HiddenWrite(s.buf, Last(s.heads).index, Last(s.tails).index, s.ppc.value);
  }

  /** Refinement: whatever the interleaving and however stale the loads, each step of either
      thread is a step of the bounded queue, and only the two index stores change it. */
  lemma {:induction false} StepRefinesQueue<T>(s: State<T>, step: Step<T>)
    requires Inv(s) && Enabled(s, step)
    ensures QueueStep(Queue(s), EventOf(s, step), Queue(Apply(s, step)), |s.buf| - 1)
  {
    hide Indices, ProducerInv, ConsumerInv, Clocks;
    match step
    case WriteSlot => WriteIsHidden(s);
    case StoreTail => StoreTailEnqueues(s);
    case StoreHead => StoreHeadDequeues(s);
    case _ =>
  }

  /** A push is refused exactly when the pushes made exceed the pops its load has observed by
      `capacity - 1`; with a current load that is when the ring is full, with a stale one it need
      never have been full. */
  lemma {:induction false} RefusalIsFull<T>(s: State<T>, k: nat)
    requires Inv(s) && Enabled(s, LoadHead(k))
    ensures EventOf(s, LoadHead(k)).ReportFull? <==> Pushes(s) - k == |s.buf| - 1
    ensures k == Pops(s) ==> (EventOf(s, LoadHead(k)).ReportFull? <==> |Queue(s)| == |s.buf| - 1)
  {
    QueueLength(s);
    FullTest(Pushes(s), k, |s.buf|);
  }

  /** A pop finds nothing exactly when the pops made equal the pushes its load has observed; with
      a current load that is when the ring is empty, with a stale one elements may be buffered. */
  lemma {:induction false} NothingIsEmpty<T>(s: State<T>, k: nat)
    requires Inv(s) && Enabled(s, LoadTail(k))
    ensures EventOf(s, LoadTail(k)).ReportEmpty? <==> k == Pops(s)
    ensures k == Pushes(s) ==> (EventOf(s, LoadTail(k)).ReportEmpty? <==> Queue(s) == [])
  {
    QueueLength(s);
    EmptyTest(k, Pops(s), |s.buf|);
  }

  /** The last read of the slot about to be written was of an element at least a lap behind. */
  lemma {:induction false} WriteAfterRead<T>(s: State<T>)
    requires Inv(s) && s.ppc.PChecked?
    ensures s.read[s.ppc.tail] <= s.pClock.consumer
  {
    hide TailStamps, HeadStamps, Numbered;
    if s.read[s.ppc.tail] > s.pClock.consumer {
      SlotClose(s.read[s.ppc.tail] - 1, Pushes(s), |s.buf|);
      assert false;
    }
  }

  lemma {:induction false} ReadAfterWrite<T>(s: State<T>)
    requires Inv(s) && s.cpc.CChecked?
    ensures s.written[s.cpc.head] <= s.cClock.producer
  {
    hide TailStamps, HeadStamps, Numbered;
    if s.written[s.cpc.head] > s.cClock.producer {
      SlotClose(s.written[s.cpc.head] - 1, Pops(s), |s.buf|);
      assert false;
    }
  }

  /** Every plain slot access is ordered by happens-before after all conflicting accesses of
      the other thread, and the two threads never hold the same slot. */
  lemma {:induction false} NoDataRace<T>(s: State<T>)
    requires Inv(s)
    ensures s.ppc.PChecked? ==> s.read[s.ppc.tail] <= s.pClock.consumer
    ensures s.cpc.CChecked? ==> s.written[s.cpc.head] <= s.cClock.producer
    ensures (s.ppc.PChecked? || s.ppc.PWritten?) && (s.cpc.CChecked? || s.cpc.CCopied?) ==> s.ppc.tail != s.cpc.head
  {
    hide Clocks, Numbered;
    if s.ppc.PChecked? {
      WriteAfterRead(s);
    }
    if s.cpc.CChecked? {
      ReadAfterWrite(s);
    }
    if (s.ppc.PChecked? || s.ppc.PWritten?) && (s.cpc.CChecked? || s.cpc.CCopied?) {
      EmptyTest(Pushes(s), Pops(s), |s.buf|);
    }
  }

  // ----- Whole runs -----

  ghost predicate Runnable<T>(s: State<T>, steps: seq<Step<T>>)
    decreases |steps|
  {
    steps == [] || (WellFormed(s) && Enabled(s, steps[0]) && Runnable(Apply(s, steps[0]), steps[1..]))
  }

  ghost function Run<T>(s: State<T>, steps: seq<Step<T>>): State<T>
    requires Runnable(s, steps)
    decreases |steps|
  {
    if steps == [] then s else Run(Apply(s, steps[0]), steps[1..])
  }

  /** The values whose push succeeded, in order. */
  ghost function Accepted<T>(s: State<T>, steps: seq<Step<T>>): seq<T>
    requires Runnable(s, steps)
    decreases |steps|
  {
    if steps == [] then []
    else
      var e := EventOf(s, steps[0]);
      (if e.Enqueue? then [e.value] else []) + Accepted(Apply(s, steps[0]), steps[1..])
  }

  /** The values handed to the consumer, in order. */
  ghost function Delivered<T>(s: State<T>, steps: seq<Step<T>>): seq<T>
    requires Runnable(s, steps)
    decreases |steps|
  {
    if steps == [] then []
    else
      var e := EventOf(s, steps[0]);
      (if e.Dequeue? then [e.value] else []) + Delivered(Apply(s, steps[0]), steps[1..])
  }

  /** One step of the specification extends a balanced account by one event. */
  lemma {:induction false} Balance<T>(q: seq<T>, e: Event<T>, q': seq<T>, bound: nat, a: seq<T>, d: seq<T>, rest: seq<T>)
    requires QueueStep(q, e, q', bound) && q' + a == d + rest
    ensures q + ((if e.Enqueue? then [e.value] else []) + a) == ((if e.Dequeue? then [e.value] else []) + d) + rest
  {
    match e
    case Enqueue(v) => assert q + ([v] + a) == q' + a;
    case Dequeue(v) => assert q + a == [v] + (q' + a) == ([v] + d) + rest;
    case _ => assert [] + a == a && [] + d == d;
  }

  lemma {:induction false} RunKeepsQueue<T>(s: State<T>, steps: seq<Step<T>>)
    requires Inv(s) && Runnable(s, steps)
    ensures Inv(Run(s, steps))
    ensures Queue(s) + Accepted(s, steps) == Delivered(s, steps) + Queue(Run(s, steps))
    decreases |steps|
  {
    if steps == [] {
      assert Queue(s) + [] == [] + Queue(s);
    } else {
      var step, s', rest := steps[0], Apply(s, steps[0]), steps[1..];
      StepInv(s, step);
      StepRefinesQueue(s, step);
      RunKeepsQueue(s', rest);
      Balance(Queue(s), EventOf(s, step), Queue(s'), |s.buf| - 1,
              Accepted(s', rest), Delivered(s', rest), Queue(Run(s', rest)));
    }
  }

  /** Safety over every run from the empty ring, in every interleaving and with every
      admissible stale load: nothing is lost, duplicated, reordered or invented; the ring never
      holds more than `capacity - 1` elements; and no step of the run races. */
  lemma {:induction false} FifoOverEveryRun<T>(s: State<T>, steps: seq<Step<T>>)
    requires Initial(s) && Runnable(s, steps)
    ensures WellFormed(Run(s, steps))
    ensures Accepted(s, steps) == Delivered(s, steps) + Queue(Run(s, steps))
    ensures |Queue(Run(s, steps))| <= |s.buf| - 1
    ensures var r := Run(s, steps);
            && (r.ppc.PChecked? ==> r.read[r.ppc.tail] <= r.pClock.consumer)
            && (r.cpc.CChecked? ==> r.written[r.cpc.head] <= r.cClock.producer)
  {
    InitialInv(s);
    RunKeepsQueue(s, steps);
    RunKeepsCapacity(s, steps);
    NoDataRace(Run(s, steps));
    assert Queue(s) + Accepted(s, steps) == Accepted(s, steps);
  }

  lemma {:induction false} RunKeepsCapacity<T>(s: State<T>, steps: seq<Step<T>>)
    requires Runnable(s, steps)
    ensures |Run(s, steps).buf| == |s.buf|
    decreases |steps|
  {
    if steps != [] {
      RunKeepsCapacity(Apply(s, steps[0]), steps[1..]);
    }
  }

  // ----- Bounded waiting -----

  function StepsLeft<T>(pc: ProducerPc<T>): nat {
    match pc
    case PIdle => 0
    case PLoaded(_, _, _) => 4
    case PChecked(_, _, _) => 3
    case PWritten(_, _, _) => 2
    case PDone(_, _) => 1
  }

  function PopStepsLeft<T>(pc: ConsumerPc<T>): nat {
    match pc
    case CIdle => 0
    case CLoaded(_) => 4
    case CChecked(_) => 3
    case CCopied(_, _) => 2
    case CDone(_) => 1
  }

  predicate IsProducerStep<T>(step: Step<T>) {
    step.BeginPush? || step.LoadHead? || step.WriteSlot? || step.StoreTail? || step.EndPush?
  }

  /** A call in progress always has a next step of its own, whatever the other thread does. */
  lemma {:induction false} NeverBlocked<T>(s: State<T>) returns (p: Step<T>, c: Step<T>)
    requires Inv(s)
    ensures !s.ppc.PIdle? ==> IsProducerStep(p) && !p.BeginPush? && Enabled(s, p)
    ensures !s.cpc.CIdle? ==> !IsProducerStep(c) && !c.BeginPop? && Enabled(s, c)
  {
    p := match s.ppc
      case PLoaded(_, _, _) => LoadHead(s.headSeen)
      case PChecked(_, _, _) => WriteSlot
      case PWritten(_, _, _) => StoreTail
      case _ => EndPush;
    c := match s.cpc
      case CLoaded(_) => LoadTail(s.tailSeen)
      case CChecked(_) => ReadSlot
      case CCopied(_, _) => StoreHead
      case _ => EndPop;
  }

  /** Each own step brings the end of a call nearer; no step of the other thread delays it. */
  lemma {:induction false} BoundedWait<T>(s: State<T>, step: Step<T>)
    requires WellFormed(s) && Enabled(s, step)
    ensures IsProducerStep(step) ==> Apply(s, step).cpc == s.cpc
    ensures !IsProducerStep(step) ==> Apply(s, step).ppc == s.ppc
    ensures IsProducerStep(step) && !step.BeginPush? ==> StepsLeft(Apply(s, step).ppc) < StepsLeft(s.ppc)
    ensures !IsProducerStep(step) && !step.BeginPop? ==> PopStepsLeft(Apply(s, step).cpc) < PopStepsLeft(s.cpc)
  {
  }

  /** How many of the steps are the producer's, or the consumer's. */
  function OwnSteps<T>(steps: seq<Step<T>>, producer: bool): nat {
    if steps == [] then 0
    else (if IsProducerStep(steps[0]) == producer then 1 else 0) + OwnSteps(steps[1..], producer)
  }

  /** Bounded waiting over runs: however the other thread interleaves, until it begins another
      call a thread takes at most four more steps of its own, one per access and one to leave. */
  lemma {:induction false} CallsEnd<T>(s: State<T>, steps: seq<Step<T>>)
    requires WellFormed(s) && Runnable(s, steps)
    ensures (forall i :: 0 <= i < |steps| ==> !steps[i].BeginPush?) ==> OwnSteps(steps, true) <= StepsLeft(s.ppc)
    ensures (forall i :: 0 <= i < |steps| ==> !steps[i].BeginPop?) ==> OwnSteps(steps, false) <= PopStepsLeft(s.cpc)
    decreases |steps|
  {
    if steps != [] {
      var s', rest := Apply(s, steps[0]), steps[1..];
      BoundedWait(s, steps[0]);
      CallsEnd(s', rest);
      assert forall i :: 0 <= i < |rest| ==> rest[i] == steps[i + 1];
    }
  }
}
