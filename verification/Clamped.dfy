/** Sums of consecutive differences clamped at zero, over a sequence of timestamps. */
module Clamped {

  function ClampPos(n: int): nat {
    if n < 0 then 0 else n
  }

  predicate NonDecreasing(s: seq<int>) {
    forall i :: 0 < i < |s| ==> s[i - 1] <= s[i]
  }

  predicate NonIncreasing(s: seq<int>) {
    forall i :: 0 < i < |s| ==> s[i - 1] >= s[i]
  }

  /** The sum of the clamped forward steps. */
  function Forward(s: seq<int>): nat {
    if |s| < 2 then 0 else Forward(s[..|s| - 1]) + ClampPos(s[|s| - 1] - s[|s| - 2])
  }

  /** The sum of the clamped backward steps: what the clock lost. */
  function Backward(s: seq<int>): nat {
    if |s| < 2 then 0 else Backward(s[..|s| - 1]) + ClampPos(s[|s| - 2] - s[|s| - 1])
  }

  lemma ForwardAppend(s: seq<int>, x: int)
    requires s != []
    ensures Forward(s + [x]) == Forward(s) + ClampPos(x - s[|s| - 1])
  {
    assert (s + [x])[..|s|] == s;
  }

  /** Forward steps exceed the net distance by exactly the backward steps. */
  lemma {:induction false} ForwardAccount(s: seq<int>)
    requires s != []
    ensures Forward(s) == s[|s| - 1] - s[0] + Backward(s)
  {
    if |s| >= 2 {
      ForwardAccount(s[..|s| - 1]);
    }
  }

  lemma {:induction false} NoBackward(s: seq<int>)
    ensures Backward(s) == 0 <==> NonDecreasing(s)
  {
    if |s| >= 2 {
      NoBackward(s[..|s| - 1]);
    }
  }

  lemma {:induction false} NoForward(s: seq<int>)
    ensures Forward(s) == 0 <==> NonIncreasing(s)
  {
    if |s| >= 2 {
      NoForward(s[..|s| - 1]);
    }
  }

  /** The clamped steps sum to at least the clamped distance, with equality exactly when the
      stamps never turn around. */
  lemma ForwardAtLeastDistance(s: seq<int>)
    requires s != []
    ensures Forward(s) >= ClampPos(s[|s| - 1] - s[0])
    ensures Forward(s) == ClampPos(s[|s| - 1] - s[0]) <==> NonDecreasing(s) || NonIncreasing(s)
  {
    ForwardAccount(s);
    NoBackward(s);
    NoForward(s);
  }

  lemma {:induction false} FirstIsLeast(s: seq<int>, i: nat)
    requires NonDecreasing(s) && i < |s|
    ensures s[0] <= s[i] <= s[|s| - 1]
  {
    if 0 < i {
      FirstIsLeast(s[..|s| - 1], i - 1);
      if i < |s| - 1 {
        FirstIsLeast(s[1..], i - 1);
      }
    } else if |s| > 1 {
      FirstIsLeast(s[1..], 0);
    }
  }

  lemma JoinNonDecreasing(a: seq<int>, b: seq<int>)
    requires a != [] && b != []
    ensures NonDecreasing(a + b) <==> NonDecreasing(a) && NonDecreasing(b) && a[|a| - 1] <= b[0]
  {
    var s := a + b;
    if NonDecreasing(s) {
      forall i | 0 < i < |a|
        ensures a[i - 1] <= a[i]
      {
        assert s[i - 1] <= s[i];
      }
      forall i | 0 < i < |b|
        ensures b[i - 1] <= b[i]
      {
        assert s[|a| + i - 1] <= s[|a| + i];
      }
      assert s[|a| - 1] <= s[|a|];
    }
  }
}
