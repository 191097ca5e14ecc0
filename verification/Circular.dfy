/** A circular array that keeps the last `capacity` items of a stream. */
module Circular {

  import RingView

  function LastOf<T>(s: seq<T>, n: nat): (t: seq<T>)
    ensures |t| == if |s| <= n then |s| else n
  {
    if |s| <= n then s else s[|s| - n..]
  }

  /** `a` is `w` turned so that its first element stands at `head`. */
  ghost predicate RotatedBy<T>(a: seq<T>, w: seq<T>, head: nat) {
    |a| == |w| && head <= |w| && a == w[|w| - head..] + w[..|w| - head]
  }

  /** `ring` holds the last `capacity` items of `rs`, the next one to be stored at `head`. */
  ghost predicate Holds<T>(ring: seq<T>, head: nat, count: nat, capacity: nat, rs: seq<T>) {
    && 0 < capacity <= |ring| && head < capacity
    && count == |LastOf(rs, capacity)|
    && (if count < capacity then head == count && ring[..count] == rs
        else RotatedBy(ring[..capacity], LastOf(rs, capacity), head))
  }

  lemma PushWhileFilling<T>(ring: seq<T>, head: nat, count: nat, capacity: nat, rs: seq<T>, r: T)
    requires Holds(ring, head, count, capacity, rs) && count < capacity
    ensures Holds(ring[head := r], RingView.Succ(head, capacity), count + 1, capacity, rs + [r])
  {
  }

  lemma PushWhenFull<T>(ring: seq<T>, head: nat, capacity: nat, rs: seq<T>, r: T)
    requires Holds(ring, head, capacity, capacity, rs)
    ensures Holds(ring[head := r], RingView.Succ(head, capacity), capacity, capacity, rs + [r])
  {
  }

  /** Storing one more item keeps the meaning. */
  lemma Push<T>(ring: seq<T>, head: nat, count: nat, capacity: nat, rs: seq<T>, r: T)
    requires Holds(ring, head, count, capacity, rs)
    ensures Holds(ring[head := r], RingView.Succ(head, capacity), if count < capacity then count + 1 else count, capacity, rs + [r])
  {
    if count < capacity {
      PushWhileFilling(ring, head, count, capacity, rs, r);
    } else {
      PushWhenFull(ring, head, capacity, rs, r);
    }
  }
}
