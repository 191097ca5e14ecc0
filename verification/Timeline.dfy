/** The receipt timeline: offsets and clamped deltas over whichever stages were captured. */
module Timeline {

  import opened Wrappers
  import opened Clamped

  datatype Stage = Stage(ts: Option<int>, offset: Option<int>, delta: Option<int>)

  datatype Timeline = Timeline(stages: seq<Stage>, total: Option<nat>, complete: bool)

  /** The captured stamps, in stage order. */
  function Captured(raw: seq<Option<int>>): (s: seq<int>)
    ensures |s| <= |raw|
  {
    if raw == [] then []
    else
      var s := Captured(raw[..|raw| - 1]);
      if raw[|raw| - 1].Some? then s + [raw[|raw| - 1].value] else s
  }

  function LastOf(s: seq<int>): Option<int> {
    if s == [] then None else Some(s[|s| - 1])
  }

  function StageAt(raw: seq<Option<int>>, i: nat): Stage
    requires i < |raw|
  {
    var prev := LastOf(Captured(raw[..i]));
    if raw[i].None? then Stage(None, None, None)
    else
      var ts := raw[i].value;
      Stage(Some(ts),
            if i == 0 then Some(0) else if raw[0].Some? then Some(ClampPos(ts - raw[0].value)) else None,
            if i == 0 || prev.None? then None else Some(ClampPos(ts - prev.value)))
  }

  /** From the wire stage to the last captured stage, never negative; nothing without the wire. */
  function Total(raw: seq<Option<int>>): Option<nat>
    requires raw != []
  {
    var last := LastOf(Captured(raw));
    if raw[0].Some? && last.Some? then Some(ClampPos(last.value - raw[0].value)) else None
  }

  ghost predicate Complete(raw: seq<Option<int>>) {
    forall i :: 0 <= i < |raw| ==> raw[i].Some?
  }

  // ----- What a stage shows, in the stamps alone -----

  ghost predicate MissingBetween(raw: seq<Option<int>>, p: int, q: int)
    requires -1 <= p <= q <= |raw|
  {
    forall j :: p < j < q ==> raw[j].None?
  }

  /** `d` is the time from stage `p` to stage `i`, zero when the clock went back. */
  ghost predicate IsElapsed(raw: seq<Option<int>>, p: nat, i: nat, d: Option<int>)
    requires p < |raw| && i < |raw|
  {
    && raw[p].Some? && raw[i].Some?
    && d == Some(if raw[i].value < raw[p].value then 0 else raw[i].value - raw[p].value)
  }

  /** A stage that was captured counts its offset from the wire stage, if that was captured, and its
      delta from the captured stage before it, if there is one. */
  ghost predicate IsStage(raw: seq<Option<int>>, i: nat, s: Stage)
    requires i < |raw|
  {
    && s.ts == raw[i]
    && (if raw[0].Some? && raw[i].Some? then IsElapsed(raw, 0, i, s.offset) else s.offset.None?)
    && (raw[i].None? || MissingBetween(raw, -1, i) ==> s.delta.None?)
    && (forall p :: 0 <= p < i && raw[p].Some? && raw[i].Some? && MissingBetween(raw, p, i) ==> IsElapsed(raw, p, i, s.delta))
  }

  ghost predicate IsTotal(raw: seq<Option<int>>, total: Option<nat>)
    requires raw != []
  {
    && (raw[0].None? ==> total.None?)
    && (forall i :: 0 <= i < |raw| && raw[0].Some? && raw[i].Some? && MissingBetween(raw, i, |raw|) ==>
          total.Some? && IsElapsed(raw, 0, i, Some(total.value)))
  }

  lemma {:induction false} NoneBefore(raw: seq<Option<int>>, n: nat)
    requires n <= |raw| && MissingBetween(raw, -1, n)
    ensures Captured(raw[..n]) == []
  {
    if n > 0 {
      NoneBefore(raw, n - 1);
      assert raw[..n][..n - 1] == raw[..n - 1];
    }
  }

  lemma {:induction false} LastBefore(raw: seq<Option<int>>, p: nat, n: nat)
    requires p < n <= |raw| && raw[p].Some? && MissingBetween(raw, p, n)
    ensures LastOf(Captured(raw[..n])) == raw[p]
  {
    assert raw[..n][..n - 1] == raw[..n - 1];
    if p < n - 1 {
      LastBefore(raw, p, n - 1);
    }
  }

  lemma {:induction false} StageMeaning(raw: seq<Option<int>>, i: nat)
    requires i < |raw|
    ensures IsStage(raw, i, StageAt(raw, i))
  {
    hide Captured, MissingBetween;
    if MissingBetween(raw, -1, i) {
      NoneBefore(raw, i);
    }
    forall p | 0 <= p < i && raw[p].Some? && raw[i].Some? && MissingBetween(raw, p, i)
      ensures IsElapsed(raw, p, i, StageAt(raw, i).delta)
    {
      LastBefore(raw, p, i);
    }
  }

  lemma {:induction false} TotalMeaning(raw: seq<Option<int>>)
    requires raw != []
    ensures IsTotal(raw, Total(raw)) && (Total(raw).Some? <==> raw[0].Some?)
  {
    hide Captured, MissingBetween;
    CapturedFirst(raw);
    assert raw[..|raw|] == raw;
    forall i | 0 <= i < |raw| && raw[0].Some? && raw[i].Some? && MissingBetween(raw, i, |raw|)
      ensures Total(raw).Some? && IsElapsed(raw, 0, i, Some(Total(raw).value))
    {
      LastBefore(raw, i, |raw|);
    }
  }

  lemma {:induction false} StagesMeaning(raw: seq<Option<int>>, stages: seq<Stage>)
    requires |stages| == |raw| && forall i :: 0 <= i < |raw| ==> stages[i] == StageAt(raw, i)
    ensures forall i :: 0 <= i < |raw| ==> IsStage(raw, i, stages[i])
  {
    hide StageAt, IsStage;
    forall i | 0 <= i < |raw|
      ensures IsStage(raw, i, stages[i])
    {
      StageMeaning(raw, i);
    }
  }

  lemma {:induction false} CapturedStep(raw: seq<Option<int>>, i: nat)
    requires i < |raw|
    ensures LastOf(Captured(raw[..i + 1])) == if raw[i].Some? then raw[i] else LastOf(Captured(raw[..i]))
    ensures Complete(raw[..i + 1]) <==> Complete(raw[..i]) && raw[i].Some?
  {
    var a := raw[..i + 1];
    assert a[..i] == raw[..i] && a[i] == raw[i];
    assert forall j :: 0 <= j < i ==> a[j] == raw[..i][j];
  }

  lemma {:induction false} NothingCaptured(raw: seq<Option<int>>)
    ensures LastOf(Captured(raw[..0])) == None && Complete(raw[..0])
  {
  }

  /** `raw` lists the stage stamps, the wire stage first. */
  method ComputeTimeline(raw: seq<Option<int>>) returns (t: Timeline)
    requires raw != []
    ensures |t.stages| == |raw| && forall i :: 0 <= i < |raw| ==> t.stages[i] == StageAt(raw, i)
    ensures t.total == Total(raw)
    ensures forall i :: 0 <= i < |raw| ==> IsStage(raw, i, t.stages[i])
    ensures IsTotal(raw, t.total)
    ensures t.total.Some? <==> raw[0].Some?
    ensures t.complete <==> Complete(raw)
  {
    hide IsStage, IsTotal, Captured, LastOf, Complete;
    NothingCaptured(raw);
    var wire := raw[0];
    var prev: Option<int> := None;
    var last: Option<int> := None;
    var complete := true;
    var stages: seq<Stage> := [];
    for i := 0 to |raw|
      invariant |stages| == i && forall j :: 0 <= j < i ==> stages[j] == StageAt(raw, j)
      invariant prev == last == LastOf(Captured(raw[..i]))
      invariant complete <==> Complete(raw[..i])
    {
      CapturedStep(raw, i);
      if raw[i].None? {
        complete := false;
        stages := stages + [Stage(None, None, None)];
      } else {
        var ts := raw[i].value;
        last := Some(ts);
        var offset := if i == 0 then Some(0) else if wire.Some? then Some(ClampPos(ts - wire.value) as int) else None;
        var delta := if i == 0 then None else if prev.Some? then Some(ClampPos(ts - prev.value) as int) else None;
        prev := Some(ts);
        stages := stages + [Stage(Some(ts), offset, delta)];
      }
    }
    assert raw[..|raw|] == raw;
    var total := if wire.Some? && last.Some? then Some(ClampPos(last.value - wire.value)) else None;
    t := Timeline(stages, total, complete);
    StagesMeaning(raw, stages);
    TotalMeaning(raw);
  }

  lemma {:induction false} CapturedFirst(raw: seq<Option<int>>)
    requires raw != []
    ensures raw[0].Some? ==> Captured(raw) != [] && Captured(raw)[0] == raw[0].value
  {
    if |raw| > 1 {
      CapturedFirst(raw[..|raw| - 1]);
    }
  }

  /** The sum of the deltas that are shown for the first `n` stages. */
  function DeltaSum(raw: seq<Option<int>>, n: nat): int
    requires n <= |raw|
  {
    if n == 0 then 0
    else DeltaSum(raw, n - 1) + (var d := StageAt(raw, n - 1).delta; if d.Some? then d.value else 0)
  }

  lemma {:induction false} DeltasAreForward(raw: seq<Option<int>>, n: nat)
    requires n <= |raw| && raw != [] && raw[0].Some?
    ensures DeltaSum(raw, n) == Forward(Captured(raw[..n]))
  {
    if n > 0 {
      DeltasAreForward(raw, n - 1);
      assert raw[..n][..n - 1] == raw[..n - 1];
      if n > 1 {
        CapturedFirst(raw[..n - 1]);
        if raw[n - 1].Some? {
          ForwardAppend(Captured(raw[..n - 1]), raw[n - 1].value);
        }
      }
    }
  }

  /** Accounting with the wire stage captured, whichever others are: the deltas sum to the net
      time plus all backward movement, hence to at least the total, and to exactly the total if
      and only if the captured stamps never turn around. */
  lemma {:induction false} DeltasAccount(raw: seq<Option<int>>)
    requires raw != [] && raw[0].Some?
    ensures var s, total := Captured(raw), Total(raw);
            && s != [] && total.Some?
            && DeltaSum(raw, |raw|) == s[|s| - 1] - raw[0].value + Backward(s)
            && DeltaSum(raw, |raw|) >= total.value
            && (DeltaSum(raw, |raw|) == total.value <==> NonDecreasing(s) || NonIncreasing(s))
  {
    CapturedFirst(raw);
    DeltasAreForward(raw, |raw|);
    assert raw[..|raw|] == raw;
    ForwardAccount(Captured(raw));
    ForwardAtLeastDistance(Captured(raw));
  }

  /** The offset of the last captured stage is the total. */
  lemma {:induction false} LastOffsetIsTotal(raw: seq<Option<int>>, i: nat)
    requires i < |raw| && raw[0].Some? && raw[i].Some? && forall j :: i < j < |raw| ==> raw[j].None?
    ensures Total(raw).Some? && StageAt(raw, i).offset == Some(Total(raw).value)
    decreases |raw|
  {
    if i < |raw| - 1 {
      LastOffsetIsTotal(raw[..|raw| - 1], i);
      assert raw[..|raw| - 1][..i] == raw[..i];
    }
  }
}
