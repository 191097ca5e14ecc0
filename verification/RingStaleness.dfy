/** What a stale load can do to the answers of the ring: both refusals can be out of date. */
module RingStaleness {

  import opened RingProtocol
  import opened RingRuns

  /** One push on its own, its load of head_ returning the k-th store. */
  function PushSteps<T>(v: T, k: nat): seq<Step<T>> {
    [BeginPush(v), LoadHead(k), WriteSlot, StoreTail, EndPush]
  }

  /** One pop on its own, its load of tail_ returning the k-th store. */
  function PopSteps<T>(k: nat): seq<Step<T>> {
    [BeginPop, LoadTail(k), ReadSlot, StoreHead, EndPop]
  }

  /** In no state of the run are more than `most` elements buffered. */
  ghost predicate HeldAtMost<T>(s: State<T>, steps: seq<Step<T>>, most: nat)
    requires Runnable(s, steps)
    decreases |steps|
  {
    && WellFormed(s) && |Queue(s)| <= most
    && (steps != [] ==> HeldAtMost(Apply(s, steps[0]), steps[1..], most))
  }

  /** A state as far as the next calls are concerned. */
  ghost predicate Quiet<T>(s: State<T>, n: nat, pushes: nat, pops: nat) {
    Inv(s) && |s.buf| == n && Pushes(s) == pushes && Pops(s) == pops && s.ppc.PIdle? && s.cpc.CIdle?
  }

  ghost predicate Takes<T>(s: State<T>, steps: seq<Step<T>>, s': State<T>, most: nat) {
    Runnable(s, steps) && Run(s, steps) == s' && HeldAtMost(s, steps, most)
  }

  lemma {:induction false} NoSteps<T>(s: State<T>, most: nat)
    requires Inv(s) && Pushes(s) - Pops(s) <= most
    ensures Takes(s, [], s, most)
  {
    QueueLength(s);
  }

  lemma {:induction false} OneMore<T>(s: State<T>, step: Step<T>, rest: seq<Step<T>>, s': State<T>, most: nat)
    requires Inv(s) && Enabled(s, step) && Pushes(s) - Pops(s) <= most
    requires Takes(Apply(s, step), rest, s', most)
    ensures Takes(s, [step] + rest, s', most)
  {
    QueueLength(s);
    assert ([step] + rest)[1..] == rest;
  }

  lemma {:induction false} Joined<T>(s: State<T>, a: seq<Step<T>>, s': State<T>, b: seq<Step<T>>, s'': State<T>, most: nat)
    requires Takes(s, a, s', most) && Takes(s', b, s'', most)
    ensures Takes(s, a + b, s'', most)
    decreases |a|
  {
    hide Apply, Enabled, Queue, WellFormed;
    if a == [] {
      assert a + b == b;
    } else {
      Joined(Apply(s, a[0]), a[1..], s', b, s'', most);
      assert (a + b)[1..] == a[1..] + b;
    }
  }

  lemma {:induction false} SeesRoom<T>(s: State<T>, k: nat)
    requires Inv(s) && Enabled(s, LoadHead(k)) && Pushes(s) < k + |s.buf| - 1
    ensures EventOf(s, LoadHead(k)).Silent?
  {
    RefusalIsFull(s, k);
  }

  lemma {:induction false} SeesElement<T>(s: State<T>, k: nat)
    requires Inv(s) && Enabled(s, LoadTail(k)) && Pops(s) < k
    ensures EventOf(s, LoadTail(k)).Silent?
  {
    NothingIsEmpty(s, k);
  }

  /** Where the thread stands after such a step. */
  predicate Reaches<T>(s: State<T>, step: Step<T>) {
    match step
    case BeginPush(_) => s.ppc.PLoaded?
    case LoadHead(_) => s.ppc.PChecked?
    case WriteSlot => s.ppc.PWritten?
    case StoreTail => s.ppc.PDone?
    case EndPush => s.ppc.PIdle?
    case BeginPop => s.cpc.CLoaded?
    case LoadTail(_) => s.cpc.CChecked?
    case ReadSlot => s.cpc.CCopied?
    case StoreHead => s.cpc.CDone?
    case EndPop => s.cpc.CIdle?
  }

  /** One step of a call that is neither refused nor in vain, seen from outside. */
  lemma {:induction false} Next<T>(s: State<T>, step: Step<T>) returns (s': State<T>)
    requires Inv(s) && Enabled(s, step)
    requires step.LoadHead? ==> Pushes(s) < step.k + |s.buf| - 1
    requires step.LoadTail? ==> Pops(s) < step.k
    ensures WellFormed(s) && s' == Apply(s, step) && Inv(s') && |s'.buf| == |s.buf|
    ensures Pushes(s') == Pushes(s) + (if step.StoreTail? then 1 else 0)
    ensures Pops(s') == Pops(s) + (if step.StoreHead? then 1 else 0)
    ensures s'.headSeen == if step.LoadHead? then step.k else s.headSeen
    ensures s'.tailSeen == if step.LoadTail? then step.k else s.tailSeen
    ensures !IsProducerStep(step) ==> s'.ppc == s.ppc
    ensures IsProducerStep(step) ==> s'.cpc == s.cpc
    ensures Reaches(s', step)
  {
    hide Indices, ProducerInv, ConsumerInv, Clocks;
    StepInv(s, step);
    if step.LoadHead? {
      SeesRoom(s, step.k);
    }
    if step.LoadTail? {
      SeesElement(s, step.k);
    }
    s' := Apply(s, step);
  }

  /** A run, and one more step that is neither refused nor in vain. */
  lemma {:induction false} More<T>(s: State<T>, steps: seq<Step<T>>, c: State<T>, step: Step<T>, most: nat) returns (r: State<T>)
    requires Takes(s, steps, c, most) && Inv(c) && Enabled(c, step)
    requires step.LoadHead? ==> Pushes(c) < step.k + |c.buf| - 1
    requires step.LoadTail? ==> Pops(c) < step.k
    requires Pushes(c) + (if step.StoreTail? then 1 else 0) - Pops(c) <= most
    ensures Takes(s, steps + [step], r, most) && Inv(r) && |r.buf| == |c.buf|
    ensures Pushes(r) == Pushes(c) + (if step.StoreTail? then 1 else 0)
    ensures Pops(r) == Pops(c) + (if step.StoreHead? then 1 else 0)
    ensures r.headSeen == if step.LoadHead? then step.k else c.headSeen
    ensures r.tailSeen == if step.LoadTail? then step.k else c.tailSeen
    ensures !IsProducerStep(step) ==> r.ppc == c.ppc
    ensures IsProducerStep(step) ==> r.cpc == c.cpc
    ensures Reaches(r, step)
  {
    hide Indices, ProducerInv, ConsumerInv, Clocks, Apply, Queue;
    r := Next(c, step);
    NoSteps(r, most);
    OneMore(c, step, [], r, most);
    assert [step] + [] == [step];
    Joined(s, steps, c, [step], r, most);
  }

  /** A push that sees room: the k-th pop is recent enough. */
  lemma {:induction false} PushOnce<T>(s: State<T>, v: T, k: nat, n: nat, pushes: nat, pops: nat, most: nat) returns (s': State<T>)
    requires Quiet(s, n, pushes, pops) && s.headSeen <= k <= pops && pushes < k + n - 1 && pushes + 1 - pops <= most
    ensures Takes(s, PushSteps(v, k), s', most)
    ensures Quiet(s', n, pushes + 1, pops) && s'.headSeen == k && s'.tailSeen == s.tailSeen
  {
    hide Indices, ProducerInv, ConsumerInv, Clocks, Apply, Queue;
    NoSteps(s, most);
    var a := More(s, [], s, BeginPush(v), most);
    var b := More(s, [] + [BeginPush(v)], a, LoadHead(k), most);
    var c := More(s, [] + [BeginPush(v)] + [LoadHead(k)], b, WriteSlot, most);
    var d := More(s, [] + [BeginPush(v)] + [LoadHead(k)] + [WriteSlot], c, StoreTail, most);
    s' := More(s, [] + [BeginPush(v)] + [LoadHead(k)] + [WriteSlot] + [StoreTail], d, EndPush, most);
    assert PushSteps(v, k) == [] + [BeginPush(v)] + [LoadHead(k)] + [WriteSlot] + [StoreTail] + [EndPush];
  }

  /** A pop that sees an element: the k-th push is recent enough. */
  lemma {:induction false} PopOnce<T>(s: State<T>, k: nat, n: nat, pushes: nat, pops: nat, most: nat) returns (s': State<T>)
    requires Quiet(s, n, pushes, pops) && s.tailSeen <= k <= pushes && pops < k && pushes - pops <= most
    ensures Takes(s, PopSteps(k), s', most)
    ensures Quiet(s', n, pushes, pops + 1) && s'.headSeen == s.headSeen && s'.tailSeen == k
  {
    hide Indices, ProducerInv, ConsumerInv, Clocks, Apply, Queue;
    NoSteps(s, most);
    var a := More(s, [], s, BeginPop, most);
    var b := More(s, [] + [BeginPop], a, LoadTail(k), most);
    var c := More(s, [] + [BeginPop] + [LoadTail(k)], b, ReadSlot, most);
    var d := More(s, [] + [BeginPop] + [LoadTail(k)] + [ReadSlot], c, StoreHead, most);
    s' := More(s, [] + [BeginPop] + [LoadTail(k)] + [ReadSlot] + [StoreHead], d, EndPop, most);
    assert PopSteps<T>(k) == [] + [BeginPop] + [LoadTail(k)] + [ReadSlot] + [StoreHead] + [EndPop];
  }

  /** Pushes that all go by the first store of head_, as long as that one shows room. */
  lemma {:induction false} PushMany<T>(s: State<T>, v: T, m: nat, n: nat, pushes: nat, pops: nat, most: nat)
    returns (steps: seq<Step<T>>, s': State<T>)
    requires Quiet(s, n, pushes, pops) && s.headSeen == 0 && pushes + m <= n - 1 && pushes + m - pops <= most
    ensures Takes(s, steps, s', most)
    ensures Quiet(s', n, pushes + m, pops) && s'.headSeen == 0 && s'.tailSeen == s.tailSeen
    decreases m
  {
    if m == 0 {
      steps, s' := [], s;
      NoSteps(s, most);
    } else {
      var mid := PushOnce(s, v, 0, n, pushes, pops, most);
      var rest;
      rest, s' := PushMany(mid, v, m - 1, n, pushes + 1, pops, most);
      steps := PushSteps(v, 0) + rest;
      Joined(s, PushSteps(v, 0), mid, rest, s', most);
    }
  }

  /** One push, one pop, and then as many pushes as the first store of head_ shows room for. */
  lemma {:induction false} StaleFill<T>(s: State<T>, v: T) returns (steps: seq<Step<T>>, c: State<T>)
    requires Initial(s) && |s.buf| >= 3
    ensures Takes(s, steps, c, |s.buf| - 2) && Quiet(c, |s.buf|, |s.buf| - 1, 1) && c.headSeen == 0
  {
    var n := |s.buf|;
    InitialInv(s);
    hide Inv;
    var a := PushOnce(s, v, 0, n, 0, 0, n - 2);
    var b := PopOnce(a, 1, n, 1, 0, n - 2);
    var more;
    more, c := PushMany(b, v, n - 2, n, 1, 1, n - 2);
    Joined(a, PopSteps(1), b, more, c, n - 2);
    steps := PushSteps(v, 0) + (PopSteps(1) + more);
    Joined(s, PushSteps(v, 0), a, PopSteps(1) + more, c, n - 2);
  }

  /** A refusal need not mean that the ring was full at any time: at every capacity of three and
      more, a run in which never more than `capacity - 2` elements are buffered leads to a push
      that is refused because its load returns a store of head_ that is out of date. */
  lemma {:induction false} RefusedNeverFull<T>(s: State<T>, v: T) returns (steps: seq<Step<T>>, r: State<T>)
    requires Initial(s) && |s.buf| >= 3
    ensures Takes(s, steps, r, |s.buf| - 2)
    ensures WellFormed(r) && Enabled(r, LoadHead(0)) && EventOf(r, LoadHead(0)).ReportFull?
    ensures |Queue(r)| == |s.buf| - 2
  {
    hide Indices, ProducerInv, ConsumerInv, Clocks;
    var fill, c := StaleFill(s, v);
    r := More(s, fill, c, BeginPush(v), |s.buf| - 2);
    steps := fill + [BeginPush(v)];
    RefusalIsFull(r, 0);
    QueueLength(r);
  }

  /** One push, one pop, and a push that the next pop may not see. */
  lemma {:induction false} UnseenPush<T>(s: State<T>, v: T) returns (steps: seq<Step<T>>, c: State<T>)
    requires Initial(s)
    ensures Takes(s, steps, c, 1) && Quiet(c, |s.buf|, 2, 1) && c.tailSeen == 1
  {
    var n := |s.buf|;
    InitialInv(s);
    hide Inv;
    var a := PushOnce(s, v, 0, n, 0, 0, 1);
    var b := PopOnce(a, 1, n, 1, 0, 1);
    c := PushOnce(b, v, 1, n, 1, 1, 1);
    Joined(a, PopSteps(1), b, PushSteps(v, 1), c, 1);
    steps := PushSteps(v, 0) + (PopSteps(1) + PushSteps(v, 1));
    Joined(s, PushSteps(v, 0), a, PopSteps(1) + PushSteps(v, 1), c, 1);
  }

  /** Likewise, at every capacity, a pop can report an empty ring while an element that was pushed
      before the call began is buffered. */
  lemma {:induction false} NothingThoughBuffered<T>(s: State<T>, v: T) returns (steps: seq<Step<T>>, r: State<T>)
    requires Initial(s)
    ensures Takes(s, steps, r, 1)
    ensures WellFormed(r) && Enabled(r, LoadTail(1)) && EventOf(r, LoadTail(1)).ReportEmpty?
    ensures |Queue(r)| == 1
  {
    hide Indices, ProducerInv, ConsumerInv, Clocks;
    var calls, c := UnseenPush(s, v);
    r := More(s, calls, c, BeginPop, 1);
    steps := calls + [BeginPop];
    NothingIsEmpty(r, 1);
    QueueLength(r);
  }
}
