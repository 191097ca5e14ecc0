/** The array-backed ring, updated in place one call at a time. What interleaved calls do is
    the subject of RingProtocol. */
module SpscRing {

  import opened Bits
  import opened RingView

  class Ring<T(0)> {
    const buf: array<T>
    const mask: nat
    var head: nat
    var tail: nat

    ghost predicate Valid()
      reads this
    {
      && RingCapacity(buf.Length) && buf.Length <= WORD
      && mask == buf.Length - 1
      && head < buf.Length && tail < buf.Length
    }

    ghost function Contents(): seq<T>
      requires Valid()
      reads this, buf
    {
      View(buf[..], head, tail)
    }

    constructor (capacity: nat, blank: T)
      requires RingCapacity(capacity) && capacity <= WORD
      ensures Valid() && fresh(buf)
      ensures buf.Length == capacity && Contents() == []
    {
      buf := new T[capacity](_ => blank);
      mask := capacity - 1;
      head, tail := 0, 0;
    }

    /** Full exactly when `capacity - 1` elements are buffered; otherwise the value is
        appended and nothing else changes. */
    method TryPush(value: T) returns (ok: bool)
      requires Valid()
      modifies this`tail, buf
      ensures Valid()
      ensures ok <==> |old(Contents())| < buf.Length - 1
      ensures Contents() == if ok then old(Contents()) + [value] else old(Contents())
    {
      ViewLength(buf[..], head, tail);
      MaskAdvances(tail, buf.Length);
      var next := And(tail + 1, mask);
      if next == head {
        return false;
      }
      PushView(buf[..], head, tail, value);
      buf[tail] := value;
      tail := next;
      return true;
    }

    /** Fails exactly when nothing is buffered; otherwise removes the oldest element. */
    method TryPop(previous: T) returns (ok: bool, out: T)
      requires Valid()
      modifies this`head
      ensures Valid()
      ensures ok <==> old(Contents()) != []
      ensures ok ==> old(Contents()) == [out] + Contents()
      ensures !ok ==> out == previous && Contents() == old(Contents())
    {
      ViewLength(buf[..], head, tail);
      if head == tail {
        return false, previous;
      }
      PopView(buf[..], head, tail);
      out := buf[head];
      MaskAdvances(head, buf.Length);
      head := And(head + 1, mask);
      ok := true;
    }

    /** With no concurrent call in between its two loads, the estimate is the exact size,
        although `tail - head` itself may wrap around 2^64. */
    method SizeApprox() returns (n: nat)
      requires Valid()
      ensures n == |Contents()|
    {
      n := And((tail - head) % WORD, mask);
      MaskIsMod((tail - head) % WORD, buf.Length);
      CapacityDividesWord(buf.Length, tail - head);
      ViewLength(buf[..], head, tail);
      ModUnique(tail - head, if head <= tail then 0 else -1, |Contents()|, buf.Length);
    }
  }

  lemma {:induction false} CapacityDividesWord(c: nat, a: int)
    requires RingCapacity(c) && c <= WORD
    ensures (a % WORD) % c == a % c
  {
    var k := TestFindsExponent(c);
    WordIsPow2();
    if k > 64 {
      Pow2Monotone(65, k);
      assert false;
    }
    WrapThenMod(a, k);
  }
}
