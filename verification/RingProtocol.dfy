/** One producer and one consumer calling the ring at the same time, one atomic access or
    one slot access per step.

    Each index is an atomic location with a single writer; all its stores, in modification
    order, form a history. A release store carries the writer's vector clock; an acquire load
    by the other thread may return any store no older than the one it returned last
    (coherence, section 6.9.2.1 of ISO/IEC 14882:2020) and joins that clock. Slot accesses are
    plain: each slot remembers the clock of its last write and of its last read, which is what
    the data-race condition compares with the accessing thread's clock. */
module RingProtocol {

  import opened RingView
  import opened Wrappers

  /** How many slot writes of the producer and slot reads of the consumer happen before. */
  datatype Clock = Clock(producer: nat, consumer: nat)

  datatype Store = Store(index: nat, clock: Clock)

  datatype ProducerPc<T> =
    | PIdle
    | PLoaded(value: T, tail: nat, next: nat)
    | PChecked(value: T, tail: nat, next: nat)
    | PWritten(value: T, tail: nat, next: nat)
    | PDone(value: T, ok: bool)

  datatype ConsumerPc<T> =
    | CIdle
    | CLoaded(head: nat)
    | CChecked(head: nat)
    | CCopied(head: nat, value: T)
    | CDone(result: Option<T>)

  datatype State<T> = State(
    buf: seq<T>,
    heads: seq<Store>,    // history of head_, oldest first
    tails: seq<Store>,    // history of tail_, oldest first
    headSeen: nat,        // the store of head_ the producer read last
    tailSeen: nat,        // the store of tail_ the consumer read last
    pClock: Clock,
    cClock: Clock,
    written: seq<nat>,    // per slot, the producer's clock at its last write
    read: seq<nat>,       // per slot, the consumer's clock at its last read
    ppc: ProducerPc<T>,
    cpc: ConsumerPc<T>)

  datatype Step<T> =
    | BeginPush(value: T) | LoadHead(k: nat) | WriteSlot | StoreTail | EndPush
    | BeginPop | LoadTail(k: nat) | ReadSlot | StoreHead | EndPop

  function Join(a: Clock, b: Clock): Clock {
    Clock(if a.producer < b.producer then b.producer else a.producer,
          if a.consumer < b.consumer then b.consumer else a.consumer)
  }

  function Last(history: seq<Store>): Store
    requires history != []
  {
    history[|history| - 1]
  }

  /** Shapes only: everything a step needs in order to be carried out. */
  ghost predicate WellFormed<T>(s: State<T>) {
    && |s.buf| >= 2 && |s.written| == |s.buf| && |s.read| == |s.buf|
    && s.heads != [] && s.tails != []
    && Last(s.heads).index < |s.buf| && Last(s.tails).index < |s.buf|
    && ((s.ppc.PLoaded? || s.ppc.PChecked? || s.ppc.PWritten?) ==> s.ppc.tail < |s.buf| && s.ppc.next < |s.buf|)
    && ((s.cpc.CLoaded? || s.cpc.CChecked? || s.cpc.CCopied?) ==> s.cpc.head < |s.buf|)
  }

  ghost predicate Initial<T>(s: State<T>) {
    && |s.buf| >= 2
    && s.heads == s.tails == [Store(0, Clock(0, 0))]
    && s.headSeen == s.tailSeen == 0
    && s.pClock == s.cClock == Clock(0, 0)
    && s.written == s.read == seq(|s.buf|, _ => 0)
    && s.ppc.PIdle? && s.cpc.CIdle?
  }

  predicate Enabled<T>(s: State<T>, step: Step<T>) {
    match step
    case BeginPush(_) => s.ppc.PIdle?
    case LoadHead(k) => s.ppc.PLoaded? && s.headSeen <= k < |s.heads|
    case WriteSlot => s.ppc.PChecked?
    case StoreTail => s.ppc.PWritten?
    case EndPush => s.ppc.PDone?
    case BeginPop => s.cpc.CIdle?
    case LoadTail(k) => s.cpc.CLoaded? && s.tailSeen <= k < |s.tails|
    case ReadSlot => s.cpc.CChecked?
    case StoreHead => s.cpc.CCopied?
    case EndPop => s.cpc.CDone?
  }

  ghost function Apply<T>(s: State<T>, step: Step<T>): (s': State<T>)
    requires WellFormed(s) && Enabled(s, step)
    ensures WellFormed(s')
  {
    match step
    case BeginPush(v) =>
      var tail := Last(s.tails).index;
      s.(ppc := PLoaded(v, tail, Succ(tail, |s.buf|)))
    case LoadHead(k) =>
      s.(headSeen := k,
         pClock := Join(s.pClock, s.heads[k].clock),
         ppc := if s.ppc.next == s.heads[k].index then PDone(s.ppc.value, false)
                else PChecked(s.ppc.value, s.ppc.tail, s.ppc.next))
    case WriteSlot =>
      s.(buf := s.buf[s.ppc.tail := s.ppc.value],
         pClock := s.pClock.(producer := s.pClock.producer + 1),
         written := s.written[s.ppc.tail := s.pClock.producer + 1],
         ppc := PWritten(s.ppc.value, s.ppc.tail, s.ppc.next))
    case StoreTail =>
      s.(tails := s.tails + [Store(s.ppc.next, s.pClock)], ppc := PDone(s.ppc.value, true))
    case EndPush =>
      s.(ppc := PIdle)
    case BeginPop =>
      s.(cpc := CLoaded(Last(s.heads).index))
    case LoadTail(k) =>
      s.(tailSeen := k,
         cClock := Join(s.cClock, s.tails[k].clock),
         cpc := if s.cpc.head == s.tails[k].index then CDone(None) else CChecked(s.cpc.head))
    case ReadSlot =>
      s.(cClock := s.cClock.(consumer := s.cClock.consumer + 1),
         read := s.read[s.cpc.head := s.cClock.consumer + 1],
         cpc := CCopied(s.cpc.head, s.buf[s.cpc.head]))
    case StoreHead =>
      s.(heads := s.heads + [Store(Succ(s.cpc.head, |s.buf|), s.cClock)], cpc := CDone(Some(s.cpc.value)))
    case EndPop =>
      s.(cpc := CIdle)
  }

  // ----- What the ring stands for -----

  /** The buffered elements, read off the slots and the current indices. */
  ghost function Queue<T>(s: State<T>): seq<T>
    requires WellFormed(s)
  {
    View(s.buf, Last(s.heads).index, Last(s.tails).index)
  }

  datatype Event<T> = Silent | Enqueue(value: T) | Dequeue(value: T) | ReportFull(value: T) | ReportEmpty

  ghost function EventOf<T>(s: State<T>, step: Step<T>): Event<T>
    requires WellFormed(s) && Enabled(s, step)
  {
    match step
    case LoadHead(k) => if s.ppc.next == s.heads[k].index then ReportFull(s.ppc.value) else Silent
    case StoreTail => Enqueue(s.ppc.value)
    case LoadTail(k) => if s.cpc.head == s.tails[k].index then ReportEmpty else Silent
    case StoreHead => Dequeue(s.cpc.value)
    case _ => Silent
  }

  /** The specification: a bounded first-in first-out queue. */
  ghost predicate QueueStep<T>(q: seq<T>, e: Event<T>, q': seq<T>, bound: nat) {
    match e
    case Enqueue(v) => |q| < bound && q' == q + [v]
    case Dequeue(v) => q == [v] + q'
    case _ => q' == q
  }

  // ----- The inductive invariant -----

  ghost function Pushes<T>(s: State<T>): nat
    requires WellFormed(s)
  {
    |s.tails| - 1
  }

  ghost function Pops<T>(s: State<T>): nat
    requires WellFormed(s)
  {
    |s.heads| - 1
  }

  /** The j-th store of a history wrote the j-th index. */
  ghost predicate Numbered(history: seq<Store>, n: nat)
    requires n > 0
  {
    forall j :: 0 <= j < |history| ==> history[j].index == Slot(j, n)
  }

  /** The j-th store of tail_ was made after j slot writes. */
  ghost predicate TailStamps(tails: seq<Store>, copies: nat) {
    forall j :: 0 <= j < |tails| ==> tails[j].clock.producer == j && tails[j].clock.consumer <= copies
  }

  ghost predicate HeadStamps(heads: seq<Store>, writes: nat) {
    forall j :: 0 <= j < |heads| ==> heads[j].clock.consumer == j && heads[j].clock.producer <= writes
  }

  /** Each slot's last access was that of an element that belongs there. */
  ghost predicate SlotStamps(stamps: seq<nat>, clock: nat)
    requires |stamps| > 0
  {
    forall i :: 0 <= i < |stamps| ==> stamps[i] <= clock && (stamps[i] > 0 ==> Slot(stamps[i] - 1, |stamps|) == i)
  }

  lemma {:induction false} AppendNumbered(history: seq<Store>, store: Store, n: nat)
    requires n > 0 && Numbered(history, n) && store.index == Slot(|history|, n)
    ensures Numbered(history + [store], n)
  {
  }

  lemma {:induction false} AppendTailStamp(tails: seq<Store>, store: Store, copies: nat)
    requires TailStamps(tails, copies) && store.clock.producer == |tails| && store.clock.consumer <= copies
    ensures TailStamps(tails + [store], copies)
  {
  }

  lemma {:induction false} AppendHeadStamp(heads: seq<Store>, store: Store, writes: nat)
    requires HeadStamps(heads, writes) && store.clock.consumer == |heads| && store.clock.producer <= writes
    ensures HeadStamps(heads + [store], writes)
  {
  }

  lemma {:induction false} LaterClock(heads: seq<Store>, tails: seq<Store>, clock: nat)
    ensures HeadStamps(heads, clock) ==> HeadStamps(heads, clock + 1)
    ensures TailStamps(tails, clock) ==> TailStamps(tails, clock + 1)
  {
  }

  lemma {:induction false} Stamp(stamps: seq<nat>, clock: nat, i: nat)
    requires |stamps| > 0 && SlotStamps(stamps, clock) && i == Slot(clock, |stamps|)
    ensures SlotStamps(stamps[i := clock + 1], clock + 1)
  {
  }

  ghost predicate Indices<T>(s: State<T>)
    requires WellFormed(s)
  {
    && Numbered(s.tails, |s.buf|)
    && Numbered(s.heads, |s.buf|)
    && s.headSeen <= Pops(s) <= s.tailSeen <= Pushes(s) <= s.headSeen + |s.buf| - 1
  }

  ghost predicate ProducerInv<T>(s: State<T>)
    requires WellFormed(s)
  {
    var n := |s.buf|;
    && ((s.ppc.PLoaded? || s.ppc.PChecked? || s.ppc.PWritten?) ==>
          s.ppc.tail == Slot(Pushes(s), n) && s.ppc.next == Slot(Pushes(s) + 1, n))
    && ((s.ppc.PChecked? || s.ppc.PWritten?) ==> Pushes(s) <= s.headSeen + n - 2)
    && (s.ppc.PWritten? ==> s.buf[s.ppc.tail] == s.ppc.value)
  }

  ghost predicate ConsumerInv<T>(s: State<T>)
    requires WellFormed(s)
  {
    && ((s.cpc.CLoaded? || s.cpc.CChecked? || s.cpc.CCopied?) ==> s.cpc.head == Slot(Pops(s), |s.buf|))
    && ((s.cpc.CChecked? || s.cpc.CCopied?) ==> Pops(s) < s.tailSeen)
    && (s.cpc.CCopied? ==> s.buf[s.cpc.head] == s.cpc.value)
  }

  ghost predicate Clocks<T>(s: State<T>)
    requires WellFormed(s)
  {
    && s.pClock.producer == Pushes(s) + (if s.ppc.PWritten? then 1 else 0)
    && s.cClock.consumer == Pops(s) + (if s.cpc.CCopied? then 1 else 0)
    && s.headSeen <= s.pClock.consumer <= s.cClock.consumer
    && s.tailSeen <= s.cClock.producer <= s.pClock.producer
    && TailStamps(s.tails, s.cClock.consumer)
    && HeadStamps(s.heads, s.pClock.producer)
    && SlotStamps(s.written, s.pClock.producer)
    && SlotStamps(s.read, s.cClock.consumer)
  }

  ghost predicate Inv<T>(s: State<T>) {
    WellFormed(s) && Indices(s) && ProducerInv(s) && ConsumerInv(s) && Clocks(s)
  }

  lemma {:induction false} InitialInv<T>(s: State<T>)
    requires Initial(s)
    ensures Inv(s) && Queue(s) == []
  {
  }

  /** The wrapped index tests answer the unwrapped questions. */
  lemma {:induction false} FullTest(pushes: nat, pops: nat, n: nat)
    requires n > 0 && pops <= pushes <= pops + n - 1
    ensures Slot(pushes + 1, n) == Slot(pops, n) <==> pushes == pops + n - 1
  {
    if pushes == pops + n - 1 {
      assert Slot(pops + n, n) == Slot(pops, n);
    } else if Slot(pushes + 1, n) == Slot(pops, n) {
      SlotClose(pushes + 1, pops, n);
    }
  }

  lemma {:induction false} EmptyTest(pushes: nat, pops: nat, n: nat)
    requires n > 0 && pops <= pushes <= pops + n - 1
    ensures Slot(pushes, n) == Slot(pops, n) <==> pushes == pops
  {
    if Slot(pushes, n) == Slot(pops, n) {
      SlotClose(pushes, pops, n);
    }
  }

  lemma {:induction false} BeginPushInv<T>(s: State<T>, v: T)
    requires Inv(s) && Enabled(s, BeginPush(v))
    ensures Inv(Apply(s, BeginPush(v)))
  {
    hide SlotStamps, TailStamps, HeadStamps;
    SlotSucc(Pushes(s), |s.buf|);
  }

  lemma {:induction false} LoadHeadKeepsIndices<T>(s: State<T>, k: nat)
    requires Inv(s) && Enabled(s, LoadHead(k))
    ensures var s' := Apply(s, LoadHead(k)); Indices(s') && ProducerInv(s') && ConsumerInv(s')
  {
    hide Clocks;
    FullTest(Pushes(s), k, |s.buf|);
  }

  lemma {:induction false} LoadHeadClocks<T>(s: State<T>, k: nat)
    requires Inv(s) && Enabled(s, LoadHead(k))
    ensures Clocks(Apply(s, LoadHead(k)))
  {
    hide ProducerInv, ConsumerInv, Numbered, SlotStamps, TailStamps;
  }

  lemma {:induction false} LoadHeadInv<T>(s: State<T>, k: nat)
    requires Inv(s) && Enabled(s, LoadHead(k))
    ensures Inv(Apply(s, LoadHead(k)))
  {
    hide Indices, ProducerInv, ConsumerInv, Clocks;
    LoadHeadKeepsIndices(s, k);
    LoadHeadClocks(s, k);
  }

  lemma {:induction false} WriteSlotKeepsIndices<T>(s: State<T>)
    requires Inv(s) && Enabled(s, WriteSlot)
    ensures var s' := Apply(s, WriteSlot); Indices(s') && ProducerInv(s') && ConsumerInv(s')
  {
    hide Clocks, Numbered;
    if s.cpc.CCopied? {
      EmptyTest(Pushes(s), Pops(s), |s.buf|);
    }
  }

  lemma {:induction false} WriteSlotClocks<T>(s: State<T>)
    requires Inv(s) && Enabled(s, WriteSlot)
    ensures Clocks(Apply(s, WriteSlot))
  {
    hide SlotStamps, TailStamps, HeadStamps, Numbered;
    Stamp(s.written, s.pClock.producer, s.ppc.tail);
    LaterClock(s.heads, [], s.pClock.producer);
  }

  lemma {:induction false} WriteSlotInv<T>(s: State<T>)
    requires Inv(s) && Enabled(s, WriteSlot)
    ensures Inv(Apply(s, WriteSlot))
  {
    WriteSlotKeepsIndices(s);
    WriteSlotClocks(s);
  }

  lemma {:induction false} StoreTailInv<T>(s: State<T>)
    requires Inv(s) && Enabled(s, StoreTail)
    ensures Inv(Apply(s, StoreTail))
  {
    hide SlotStamps, TailStamps, HeadStamps, Numbered;
    var store := Store(s.ppc.next, s.pClock);
    AppendNumbered(s.tails, store, |s.buf|);
    AppendTailStamp(s.tails, store, s.cClock.consumer);
  }

  lemma {:induction false} BeginPopInv<T>(s: State<T>)
    requires Inv(s) && Enabled(s, BeginPop)
    ensures Inv(Apply(s, BeginPop))
  {
    hide SlotStamps, TailStamps, HeadStamps;
  }

  lemma {:induction false} LoadTailKeepsIndices<T>(s: State<T>, k: nat)
    requires Inv(s) && Enabled(s, LoadTail(k))
    ensures var s' := Apply(s, LoadTail(k)); Indices(s') && ProducerInv(s') && ConsumerInv(s')
  {
    hide Clocks;
    EmptyTest(k, Pops(s), |s.buf|);
  }

  lemma {:induction false} LoadTailClocks<T>(s: State<T>, k: nat)
    requires Inv(s) && Enabled(s, LoadTail(k))
    ensures Clocks(Apply(s, LoadTail(k)))
  {
    hide ProducerInv, ConsumerInv, Numbered, SlotStamps, HeadStamps;
  }

  lemma {:induction false} LoadTailInv<T>(s: State<T>, k: nat)
    requires Inv(s) && Enabled(s, LoadTail(k))
    ensures Inv(Apply(s, LoadTail(k)))
  {
    hide Indices, ProducerInv, ConsumerInv, Clocks;
    LoadTailKeepsIndices(s, k);
    LoadTailClocks(s, k);
  }

  lemma {:induction false} ReadSlotInv<T>(s: State<T>)
    requires Inv(s) && Enabled(s, ReadSlot)
    ensures Inv(Apply(s, ReadSlot))
  {
    hide SlotStamps, TailStamps, HeadStamps, Numbered;
    Stamp(s.read, s.cClock.consumer, s.cpc.head);
    LaterClock([], s.tails, s.cClock.consumer);
  }

  lemma {:induction false} StoreHeadInv<T>(s: State<T>)
    requires Inv(s) && Enabled(s, StoreHead)
    ensures Inv(Apply(s, StoreHead))
  {
    hide SlotStamps, TailStamps, HeadStamps, Numbered;
    SlotSucc(Pops(s), |s.buf|);
    var store := Store(Succ(s.cpc.head, |s.buf|), s.cClock);
    AppendNumbered(s.heads, store, |s.buf|);
    AppendHeadStamp(s.heads, store, s.pClock.producer);
  }

  lemma {:induction false} EndPushInv<T>(s: State<T>)
    requires Inv(s) && Enabled(s, EndPush)
    ensures Inv(Apply(s, EndPush))
  {
    hide SlotStamps, TailStamps, HeadStamps, Numbered;
  }

  lemma {:induction false} EndPopInv<T>(s: State<T>)
    requires Inv(s) && Enabled(s, EndPop)
    ensures Inv(Apply(s, EndPop))
  {
    hide SlotStamps, TailStamps, HeadStamps, Numbered;
  }

  /** Every step of either thread keeps the invariant. */
  lemma {:induction false} StepInv<T>(s: State<T>, step: Step<T>)
    requires Inv(s) && Enabled(s, step)
    ensures Inv(Apply(s, step))
  {
    match step
    case BeginPush(v) => BeginPushInv(s, v);
    case LoadHead(k) => LoadHeadInv(s, k);
    case WriteSlot => WriteSlotInv(s);
    case StoreTail => StoreTailInv(s);
    case EndPush => EndPushInv(s);
    case BeginPop => BeginPopInv(s);
    case LoadTail(k) => LoadTailInv(s, k);
    case ReadSlot => ReadSlotInv(s);
    case StoreHead => StoreHeadInv(s);
    case EndPop => EndPopInv(s);
  }
}
