/** The queue that a circular buffer with two indices stands for. Shared by the class that
    updates the buffer in place and by the step-level protocol. */
module RingView {

  import Bits

  predicate InRange<T>(b: seq<T>, head: nat, tail: nat) {
    |b| >= 2 && head < |b| && tail < |b|
  }

  /** Elements from `head` up to, not including, `tail`, wrapping at the end of the buffer. */
  ghost function View<T>(b: seq<T>, head: nat, tail: nat): (q: seq<T>)
    requires InRange(b, head, tail)
    ensures |q| <= |b| - 1
  {
    if head <= tail then b[head..tail] else b[head..] + b[..tail]
  }

  /** The next index, wrapping at the end of the buffer. */
  function Succ(i: nat, n: nat): (j: nat)
    requires i < n
    ensures j < n
  {
    if i + 1 == n then 0 else i + 1
  }

  /** For every capacity the ring accepts, this is what `(i + 1) & mask` computes. */
  lemma {:induction false} MaskAdvances(i: nat, n: nat)
    requires Bits.RingCapacity(n) && i < n
    ensures Bits.And(i + 1, n - 1) == Succ(i, n)
  {
    Bits.MaskIsMod(i + 1, n);
    ModOfSucc(i, n);
  }

  lemma {:induction false} ModOfSucc(i: nat, n: nat)
    requires i < n
    ensures (i + 1) % n == Succ(i, n)
  {
    if i + 1 == n {
      Bits.ModUnique(n, 1, 0, n);
    } else {
      Bits.ModUnique(i + 1, 0, i + 1, n);
    }
  }

  /** The slot of the j-th element ever stored: `j` modulo `n`, by repeated subtraction. */
  function Slot(j: nat, n: nat): (i: nat)
    requires n > 0
    ensures i < n
  {
    if j < n then j else Slot(j - n, n)
  }

  lemma {:induction false} SlotIsMod(j: nat, n: nat)
    requires n > 0
    ensures Slot(j, n) == j % n
  {
    if j < n {
      Bits.ModUnique(j, 0, j, n);
    } else {
      SlotIsMod(j - n, n);
      Bits.ModShift(j, -1, n);
    }
  }

  lemma {:induction false} SlotSucc(j: nat, n: nat)
    requires n > 0
    ensures Slot(j + 1, n) == Succ(Slot(j, n), n)
  {
    if j >= n {
      SlotSucc(j - n, n);
    }
  }

  lemma {:induction false} SlotClose(a: nat, b: nat, n: nat)
    requires n > 0 && a - b < n && b - a < n && Slot(a, n) == Slot(b, n)
    ensures a == b
  {
    SlotIsMod(a, n);
    SlotIsMod(b, n);
    Bits.CloseAndCongruent(a, b, n);
  }

  lemma {:induction false} SlotDistance(a: nat, b: nat, n: nat)
    requires n >= 2 && a <= b <= a + n - 1
    ensures b - a == (if Slot(a, n) <= Slot(b, n) then Slot(b, n) - Slot(a, n) else Slot(b, n) - Slot(a, n) + n)
    decreases b
  {
    if a >= n {
      SlotDistance(a - n, b - n, n);
    }
  }

  lemma {:induction false} ViewLength<T>(b: seq<T>, head: nat, tail: nat)
    requires InRange(b, head, tail)
    ensures |View(b, head, tail)| == if head <= tail then tail - head else tail - head + |b|
    ensures View(b, head, tail) == [] <==> head == tail
    ensures |View(b, head, tail)| == |b| - 1 <==> Succ(tail, |b|) == head
  {
  }

  /** Storing at `tail` and advancing it appends, provided one slot stays empty. */
  lemma {:induction false} PushView<T>(b: seq<T>, head: nat, tail: nat, v: T)
    requires InRange(b, head, tail) && Succ(tail, |b|) != head
    ensures View(b[tail := v], head, Succ(tail, |b|)) == View(b, head, tail) + [v]
  {
  }

  /** Advancing `head` removes exactly the front element, which is the one stored at `head`. */
  lemma {:induction false} PopView<T>(b: seq<T>, head: nat, tail: nat)
    requires InRange(b, head, tail) && head != tail
    ensures View(b, head, tail) != [] && View(b, head, tail)[0] == b[head]
    ensures View(b, Succ(head, |b|), tail) == View(b, head, tail)[1..]
  {
  }

  /** A store into the empty slot at `tail` is invisible until `tail` advances. */
  lemma {:induction false} HiddenWrite<T>(b: seq<T>, head: nat, tail: nat, v: T)
    requires InRange(b, head, tail)
    ensures View(b[tail := v], head, tail) == View(b, head, tail)
  {
  }
}
