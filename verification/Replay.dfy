/** The replay event stream of one case: captured stamps, then the agent nodes interpolated over
    the agent span. */
module Replay {

  import opened Division
  import opened Wrappers
  import opened Clamped

  datatype Key = WireKey | ComputeKey | ScoreKey | Forensic | Auditor | Enforcer

  /** The stamps of one report row, and which agent stages left a rationale. */
  datatype Row = Row(wire: Option<int>, compute: Option<int>, score: Option<int>, verdict: Option<int>,
                     enforced: Option<int>, forensic: bool, auditor: bool, enforcer: bool)

  datatype Stamp = Stamp(key: Key, ts: int, approximate: bool)

  datatype Event = Event(stamp: Stamp, offset: nat, delta: nat)

  function OrElse(a: Option<int>, b: int): int {
    if a.Some? then a.value else b
  }

  function SpanStart(row: Row, wire: int): int {
    OrElse(row.score, wire)
  }

  function SpanEnd(row: Row, wire: int): int {
    OrElse(row.enforced, OrElse(row.verdict, SpanStart(row, wire)))
  }

  function Nodes(row: Row): (ns: seq<Key>)
    ensures |ns| <= 3
    ensures forall i :: 0 <= i < |ns| ==> ns[i] == Enforcer ==> i == |ns| - 1
  {
    (if row.forensic then [Forensic] else []) + (if row.auditor then [Auditor] else []) + (if row.enforcer then [Enforcer] else [])
  }

  function NodeTime(start: int, end: int, count: nat, index: nat): int
    requires index < count
  {
    if count == 1 then end else start + TruncDiv((end - start) * (index + 1), count)
  }

  function NodeStamp(row: Row, wire: int, index: nat): Stamp
    requires index < |Nodes(row)|
  {
    var t := NodeTime(SpanStart(row, wire), SpanEnd(row, wire), |Nodes(row)|, index);
    if Nodes(row)[index] == Enforcer then Stamp(Enforcer, OrElse(row.enforced, t), row.enforced.None?)
    else Stamp(Nodes(row)[index], t, true)
  }

  function CapturedStamps(row: Row, wire: int): seq<Stamp> {
    [Stamp(WireKey, wire, false)]
    + (if row.compute.Some? then [Stamp(ComputeKey, row.compute.value, false)] else [])
    + (if row.score.Some? then [Stamp(ScoreKey, row.score.value, false)] else [])
  }

  function NodeStamps(row: Row, wire: int): (s: seq<Stamp>)
    ensures |s| == |Nodes(row)|
  {
    seq(|Nodes(row)|, i requires 0 <= i < |Nodes(row)| => NodeStamp(row, wire, i))
  }

  function Stamps(row: Row, wire: int): (s: seq<Stamp>)
    ensures s != []
  {
    CapturedStamps(row, wire) + NodeStamps(row, wire)
  }

  function Times(s: seq<Stamp>): (ts: seq<int>)
    ensures |ts| == |s| && forall i :: 0 <= i < |s| ==> ts[i] == s[i].ts
  {
    seq(|s|, i requires 0 <= i < |s| => s[i].ts)
  }

  function EventAt(stamps: seq<Stamp>, wire: int, i: nat): Event
    requires i < |stamps|
  {
    Event(stamps[i], ClampPos(stamps[i].ts - wire), if i == 0 then 0 else ClampPos(stamps[i].ts - stamps[i - 1].ts))
  }

  method StampCaptured(row: Row, wire: int) returns (stamps: seq<Stamp>)
    ensures stamps == CapturedStamps(row, wire)
  {
    stamps := [Stamp(WireKey, wire, false)];
    if row.compute.Some? {
      stamps := stamps + [Stamp(ComputeKey, row.compute.value, false)];
    }
    if row.score.Some? {
      stamps := stamps + [Stamp(ScoreKey, row.score.value, false)];
    }
  }

  method StampNodes(row: Row, wire: int) returns (stamps: seq<Stamp>)
    ensures stamps == NodeStamps(row, wire)
  {
    var start, end := SpanStart(row, wire), SpanEnd(row, wire);
    var span := end - start;
    var nodes: seq<Key> := [];
    if row.forensic { nodes := nodes + [Forensic]; }
    if row.auditor { nodes := nodes + [Auditor]; }
    if row.enforcer { nodes := nodes + [Enforcer]; }
    assert nodes == Nodes(row);
    stamps := [];
    for i := 0 to |nodes|
      invariant |stamps| == i && forall j :: 0 <= j < i ==> stamps[j] == NodeStamp(row, wire, j)
    {
      var t := if |nodes| == 1 then end else start + TruncDiv(span * (i + 1), |nodes|);
      if nodes[i] == Enforcer {
        stamps := stamps + [Stamp(Enforcer, OrElse(row.enforced, t), row.enforced.None?)];
      } else {
        stamps := stamps + [Stamp(nodes[i], t, true)];
      }
    }
  }

  method WithDeltas(stamps: seq<Stamp>, wire: int) returns (events: seq<Event>)
    ensures |events| == |stamps| && forall i :: 0 <= i < |events| ==> events[i] == EventAt(stamps, wire, i)
  {
    var prev: Option<int> := None;
    events := [];
    for i := 0 to |stamps|
      invariant |events| == i && forall j :: 0 <= j < i ==> events[j] == EventAt(stamps, wire, j)
      invariant if i == 0 then prev.None? else prev == Some(stamps[i - 1].ts)
    {
      var delta := if prev.None? then 0 else ClampPos(stamps[i].ts - prev.value);
      prev := Some(stamps[i].ts);
      events := events + [Event(stamps[i], ClampPos(stamps[i].ts - wire), delta)];
    }
  }

  // ----- Interpolation -----

  /** The last agent node lands exactly on the span's end, also when it is the enforcement
      whose own stamp is known. */
  lemma {:induction false} LastNodeLands(row: Row, wire: int)
    requires Nodes(row) != []
    ensures NodeStamp(row, wire, |Nodes(row)| - 1).ts == SpanEnd(row, wire)
  {
    var m, span := |Nodes(row)|, SpanEnd(row, wire) - SpanStart(row, wire);
    ExactQuotient(span, m);
  }

  lemma {:induction false} ExactQuotient(span: int, m: nat)
    requires m > 0
    ensures TruncDiv(span * m, m) == span
  {
    TruncDivMeaning(span * m, m);
    if span * m >= 0 {
      DivShift(0, span, m);
    } else {
      DivShift(0, -span, m);
      assert -(span * m) == (-span) * m;
    }
  }

  /** The stamp of node `index` is its interpolated time. */
  lemma {:induction false} NodeIsInterpolated(row: Row, wire: int, index: nat)
    requires index < |Nodes(row)|
    ensures NodeStamp(row, wire, index).ts == NodeTime(SpanStart(row, wire), SpanEnd(row, wire), |Nodes(row)|, index)
  {
    if index == |Nodes(row)| - 1 {
      LastNodeLands(row, wire);
      ExactQuotient(SpanEnd(row, wire) - SpanStart(row, wire), |Nodes(row)|);
    }
  }

  /** Where the node before stands: the span's start before the first. */
  function Before(row: Row, wire: int, index: nat): int
    requires index < |Nodes(row)|
  {
    if index == 0 then SpanStart(row, wire) else NodeStamp(row, wire, index - 1).ts
  }

  lemma {:induction false} QuotientGap(x: nat, span: nat, m: nat)
    requires m > 0
    ensures span / m <= TruncDiv(x + span, m) - TruncDiv(x, m) <= (if span % m == 0 then span / m else span / m + 1)
  {
    TruncDivMeaning(x, m);
    TruncDivMeaning(x + span, m);
    FloorGap(x, span, m);
  }

  lemma {:induction false} Multiples(span: nat, index: nat)
    ensures span * (index + 1) == span * index + span && span * index >= 0
  {
  }

  /** Consecutive interpolated times, the start standing for the one before the first. */
  lemma {:induction false} TimeGap(start: int, span: nat, m: nat, index: nat)
    requires index < m
    ensures var before := if index == 0 then start else NodeTime(start, start + span, m, index - 1);
            span / m <= NodeTime(start, start + span, m, index) - before <= (if span % m == 0 then span / m else span / m + 1)
  {
    hide TruncDiv;
    Multiples(span, index);
    QuotientGap(span * index, span, m);
    ZeroQuotient(m);
  }

  lemma {:induction false} ZeroQuotient(m: nat)
    requires m > 0
    ensures TruncDiv(0, m) == 0
  {
    DivShift(0, 0, m);
  }

  /** Over a forward span consecutive nodes are the floor or the ceiling of span / nodes apart. */
  lemma {:induction false} EvenGaps(row: Row, wire: int, index: nat)
    requires index < |Nodes(row)| && SpanStart(row, wire) <= SpanEnd(row, wire)
    ensures var span, m := SpanEnd(row, wire) - SpanStart(row, wire), |Nodes(row)|;
            span / m <= NodeStamp(row, wire, index).ts - Before(row, wire, index) <= (if span % m == 0 then span / m else span / m + 1)
  {
    hide NodeTime, NodeStamp, Nodes;
    NodeIsInterpolated(row, wire, index);
    if index > 0 {
      NodeIsInterpolated(row, wire, index - 1);
    }
    TimeGap(SpanStart(row, wire), SpanEnd(row, wire) - SpanStart(row, wire), |Nodes(row)|, index);
  }

  // ----- What the stream is, in the fields of the row -----

  ghost predicate Captures(row: Row, wire: int, events: seq<Event>, c: nat)
    requires 1 <= c <= |events|
  {
    && events[0].stamp == Stamp(WireKey, wire, false)
    && (row.compute.Some? ==> c >= 2 && events[1].stamp == Stamp(ComputeKey, row.compute.value, false))
    && (row.score.Some? ==> events[c - 1].stamp == Stamp(ScoreKey, row.score.value, false))
  }

  /** Each rationale has its node, in the order of the pipeline; only a stamped enforcement is exact. */
  ghost predicate NodeKeys(row: Row, events: seq<Event>, c: nat, m: nat)
    requires |events| == c + m
  {
    && (row.forensic ==> m >= 1 && events[c].stamp.key == Forensic)
    && (row.auditor ==> var at := if row.forensic then 1 else 0; at < m && events[c + at].stamp.key == Auditor)
    && (row.enforcer ==> m >= 1 && events[c + m - 1].stamp.key == Enforcer)
    && forall i :: c <= i < c + m ==>
         (events[i].stamp.approximate <==> !(events[i].stamp.key == Enforcer && row.enforced.Some?))
  }

  /** The last node stands at the enforcement, else at the verdict, else where the span starts: at
      the score, else at the wire. The nodes before it divide the span, quotients truncated. */
  ghost predicate NodeTimes(row: Row, wire: int, events: seq<Event>, c: nat, m: nat)
    requires |events| == c + m
  {
    var start := if row.score.Some? then row.score.value else wire;
    var end := if row.enforced.Some? then row.enforced.value else if row.verdict.Some? then row.verdict.value else start;
    && (m > 0 ==> events[c + m - 1].stamp.ts == end)
    && forall j :: c <= j < c + m - 1 ==> events[j].stamp.ts == start + TruncDiv((end - start) * (j - c + 1), m)
  }

  ghost predicate Offsets(wire: int, events: seq<Event>) {
    && (forall i :: 0 <= i < |events| ==>
          events[i].offset == if events[i].stamp.ts < wire then 0 else events[i].stamp.ts - wire)
    && (forall i :: 0 <= i < |events| ==>
          events[i].delta == if i == 0 || events[i].stamp.ts < events[i - 1].stamp.ts then 0
                             else events[i].stamp.ts - events[i - 1].stamp.ts)
  }

  /** The whole stream: the captured stages that have a stamp, then one node per rationale. */
  ghost predicate IsReplay(row: Row, wire: int, events: seq<Event>) {
    var c := 1 + (if row.compute.Some? then 1 else 0) + (if row.score.Some? then 1 else 0);
    var m := (if row.forensic then 1 else 0) + (if row.auditor then 1 else 0) + (if row.enforcer then 1 else 0);
    && |events| == c + m
    && Captures(row, wire, events, c) && NodeKeys(row, events, c, m) && NodeTimes(row, wire, events, c, m)
    && Offsets(wire, events)
  }

  lemma {:induction false} NodesMeaning(row: Row, wire: int, i: nat)
    requires i < |Nodes(row)|
    ensures var n := NodeStamp(row, wire, i);
            && n.key == Nodes(row)[i]
            && n.ts == NodeTime(SpanStart(row, wire), SpanEnd(row, wire), |Nodes(row)|, i)
            && (n.approximate <==> !(n.key == Enforcer && row.enforced.Some?))
  {
    hide NodeTime, SpanStart, SpanEnd;
    NodeIsInterpolated(row, wire, i);
  }

  lemma {:induction false} TimesMeaning(row: Row, wire: int, events: seq<Event>, c: nat)
    requires |events| == c + |Nodes(row)|
    requires forall i :: 0 <= i < |Nodes(row)| ==> events[c + i].stamp == NodeStamp(row, wire, i)
    ensures NodeTimes(row, wire, events, c, |Nodes(row)|)
  {
    hide Nodes, NodeStamp, TruncDiv;
    var m := |Nodes(row)|;
    if m > 0 {
      LastNodeLands(row, wire);
    }
    forall j | c <= j < c + m - 1
      ensures events[j].stamp.ts == NodeTime(SpanStart(row, wire), SpanEnd(row, wire), m, j - c)
    {
      NodeIsInterpolated(row, wire, j - c);
      assert events[c + (j - c)].stamp == NodeStamp(row, wire, j - c);
    }
  }

  lemma {:induction false} KeysMeaning(row: Row, wire: int, events: seq<Event>, c: nat)
    requires |events| == c + |Nodes(row)|
    requires forall i :: 0 <= i < |Nodes(row)| ==> events[c + i].stamp == NodeStamp(row, wire, i)
    ensures NodeKeys(row, events, c, |Nodes(row)|)
  {
    hide NodeStamp;
    forall i | c <= i < |events|
      ensures events[i].stamp.key == Nodes(row)[i - c]
      ensures events[i].stamp.approximate <==> !(events[i].stamp.key == Enforcer && row.enforced.Some?)
    {
      NodesMeaning(row, wire, i - c);
      assert events[c + (i - c)].stamp == NodeStamp(row, wire, i - c);
    }
  }

  lemma {:induction false} ReplayMeaning(row: Row, wire: int, events: seq<Event>)
    requires var stamps := Stamps(row, wire);
             |events| == |stamps| && forall i :: 0 <= i < |events| ==> events[i] == EventAt(stamps, wire, i)
    ensures IsReplay(row, wire, events)
  {
    hide NodeStamp, NodeTimes, NodeKeys;
    var captured, nodes := CapturedStamps(row, wire), NodeStamps(row, wire);
    var c := |captured|;
    forall i | 0 <= i < |nodes|
      ensures events[c + i].stamp == NodeStamp(row, wire, i)
    {
      assert (captured + nodes)[c + i] == nodes[i];
    }
    TimesMeaning(row, wire, events, c);
    KeysMeaning(row, wire, events, c);
  }

  /** Nothing without the wire stamp; otherwise the stamped events with their offsets and
      clamped deltas, the delta of each event taken from the unclamped stamp before it. */
  method BuildReplay(row: Row) returns (events: seq<Event>)
    ensures row.wire.None? ==> events == []
    ensures row.wire.Some? ==>
              var stamps := Stamps(row, row.wire.value);
              |events| == |stamps| && forall i :: 0 <= i < |events| ==> events[i] == EventAt(stamps, row.wire.value, i)
    ensures row.wire.Some? ==> IsReplay(row, row.wire.value, events)
  {
    if row.wire.None? {
      return [];
    }
    var captured := StampCaptured(row, row.wire.value);
    var nodes := StampNodes(row, row.wire.value);
    events := WithDeltas(captured + nodes, row.wire.value);
    ReplayMeaning(row, row.wire.value, events);
  }

  // ----- Monotonicity -----

  /** What must hold of a row for its replay to run forward: the captured stamps in order, the
      agent span not backward, and, without a score, the first node not before the compute
      stamp. */
  predicate RunsForward(row: Row, wire: int) {
    && (row.compute.Some? ==> wire <= row.compute.value)
    && (row.score.Some? ==> OrElse(row.compute, wire) <= row.score.value)
    && (Nodes(row) != [] ==>
          && SpanStart(row, wire) <= SpanEnd(row, wire)
          && (row.score.None? && row.compute.Some? ==>
                row.compute.value <= wire + (SpanEnd(row, wire) - wire) / |Nodes(row)|))
  }

  lemma {:induction false} FirstNode(row: Row, wire: int)
    requires Nodes(row) != [] && SpanStart(row, wire) <= SpanEnd(row, wire)
    ensures NodeStamp(row, wire, 0).ts == SpanStart(row, wire) + (SpanEnd(row, wire) - SpanStart(row, wire)) / |Nodes(row)|
    ensures NodeStamp(row, wire, 0).ts >= SpanStart(row, wire)
  {
    NodeIsInterpolated(row, wire, 0);
    TruncDivMeaning(SpanEnd(row, wire) - SpanStart(row, wire), |Nodes(row)|);
    DivMonotone(0, SpanEnd(row, wire) - SpanStart(row, wire), |Nodes(row)|);
  }

  lemma {:induction false} NodesForward(row: Row, wire: int)
    requires SpanStart(row, wire) <= SpanEnd(row, wire)
    ensures NonDecreasing(Times(NodeStamps(row, wire)))
  {
    forall i | 0 < i < |Nodes(row)|
      ensures NodeStamp(row, wire, i - 1).ts <= NodeStamp(row, wire, i).ts
    {
      EvenGaps(row, wire, i);
      DivMonotone(0, SpanEnd(row, wire) - SpanStart(row, wire), |Nodes(row)|);
    }
  }

  lemma {:induction false} CapturedForward(row: Row, wire: int)
    ensures NonDecreasing(Times(CapturedStamps(row, wire))) <==>
              (row.compute.Some? ==> wire <= row.compute.value) && (row.score.Some? ==> OrElse(row.compute, wire) <= row.score.value)
  {
    var ts := Times(CapturedStamps(row, wire));
    if row.compute.Some? && row.score.Some? {
      assert ts == [wire, row.compute.value, row.score.value];
      InOrder([wire], row.compute.value);
      InOrder([wire, row.compute.value], row.score.value);
      assert [wire] + [row.compute.value] == [wire, row.compute.value];
      assert [wire, row.compute.value] + [row.score.value] == ts;
    } else if row.compute.Some? {
      InOrder([wire], row.compute.value);
      assert ts == [wire] + [row.compute.value];
    } else if row.score.Some? {
      InOrder([wire], row.score.value);
      assert ts == [wire] + [row.score.value];
    }
  }

  lemma {:induction false} InOrder(s: seq<int>, x: int)
    requires s != []
    ensures NonDecreasing(s + [x]) <==> NonDecreasing(s) && s[|s| - 1] <= x
  {
    JoinNonDecreasing(s, [x]);
  }

  lemma {:induction false} LastCaptured(row: Row, wire: int)
    ensures var ts := Times(CapturedStamps(row, wire));
            ts[0] == wire && ts[|ts| - 1] == OrElse(row.score, OrElse(row.compute, wire))
  {
  }

  lemma {:induction false} JoinedTimes(row: Row, wire: int)
    ensures Times(Stamps(row, wire)) == Times(CapturedStamps(row, wire)) + Times(NodeStamps(row, wire))
  {
  }

  /** The event stream is non-decreasing if and only if the row runs forward. */
  lemma {:induction false} StreamForward(row: Row, wire: int)
    ensures NonDecreasing(Times(Stamps(row, wire))) <==> RunsForward(row, wire)
  {
    var a, b := Times(CapturedStamps(row, wire)), Times(NodeStamps(row, wire));
    JoinedTimes(row, wire);
    CapturedForward(row, wire);
    LastCaptured(row, wire);
    if Nodes(row) == [] {
      assert a + b == a;
    } else {
      JoinNonDecreasing(a, b);
      LastNodeLands(row, wire);
      if SpanStart(row, wire) <= SpanEnd(row, wire) {
        NodesForward(row, wire);
        FirstNode(row, wire);
      } else {
        BackwardSpan(row, wire);
      }
    }
  }

  /** A backward span makes the stream turn around. */
  lemma {:induction false} BackwardSpan(row: Row, wire: int)
    requires Nodes(row) != [] && SpanEnd(row, wire) < SpanStart(row, wire)
    ensures !NonDecreasing(Times(Stamps(row, wire)))
  {
    var s := Times(Stamps(row, wire));
    JoinedTimes(row, wire);
    LastCaptured(row, wire);
    LastNodeLands(row, wire);
    if NonDecreasing(s) {
      FirstIsLeast(s, |CapturedStamps(row, wire)| - 1);
    }
  }

  function DeltaSum(stamps: seq<Stamp>, wire: int, n: nat): nat
    requires n <= |stamps|
  {
    if n == 0 then 0 else DeltaSum(stamps, wire, n - 1) + EventAt(stamps, wire, n - 1).delta
  }

  lemma {:induction false} DeltasAreForward(stamps: seq<Stamp>, wire: int, n: nat)
    requires n <= |stamps|
    ensures DeltaSum(stamps, wire, n) == Forward(Times(stamps)[..n])
  {
    if n > 0 {
      DeltasAreForward(stamps, wire, n - 1);
      assert Times(stamps)[..n][..n - 1] == Times(stamps)[..n - 1];
    }
  }

  lemma {:induction false} ForwardOffsets(stamps: seq<Stamp>, wire: int)
    requires stamps != [] && stamps[0].ts == wire && NonDecreasing(Times(stamps))
    ensures forall i :: 0 < i < |stamps| ==> EventAt(stamps, wire, i - 1).offset <= EventAt(stamps, wire, i).offset
    ensures EventAt(stamps, wire, |stamps| - 1).offset == stamps[|stamps| - 1].ts - wire
  {
    var ts := Times(stamps);
    FirstIsLeast(ts, 0);
    forall i | 0 < i < |stamps|
      ensures EventAt(stamps, wire, i - 1).offset <= EventAt(stamps, wire, i).offset
    {
      assert ts[i - 1] <= ts[i];
    }
  }

  /** A row that runs forward: offsets never decrease, and the deltas sum to the last offset,
      which is the real time from the wire to the last event. */
  lemma {:induction false} ForwardReplay(row: Row, wire: int)
    requires RunsForward(row, wire)
    ensures var s := Stamps(row, wire);
            && (forall i :: 0 < i < |s| ==> EventAt(s, wire, i - 1).offset <= EventAt(s, wire, i).offset)
            && DeltaSum(s, wire, |s|) == EventAt(s, wire, |s| - 1).offset == s[|s| - 1].ts - wire
  {
    var s := Stamps(row, wire);
    StreamForward(row, wire);
    ReplayAccount(row, wire);
    NoBackward(Times(s));
    ForwardOffsets(s, wire);
  }

  /** In general the deltas exceed the net time by what the stamps run backward. */
  lemma {:induction false} ReplayAccount(row: Row, wire: int)
    ensures var s := Stamps(row, wire);
            DeltaSum(s, wire, |s|) == s[|s| - 1].ts - wire + Backward(Times(s))
  {
    var s := Stamps(row, wire);
    DeltasAreForward(s, wire, |s|);
    assert Times(s)[..|s|] == Times(s);
    ForwardAccount(Times(s));
  }

  /** Exactly when the deltas sum to the last offset: when the stamps never turn around. */
  lemma {:induction false} DeltasSumExactly(row: Row, wire: int)
    ensures var s := Stamps(row, wire);
            DeltaSum(s, wire, |s|) >= EventAt(s, wire, |s| - 1).offset
            && (DeltaSum(s, wire, |s|) == EventAt(s, wire, |s| - 1).offset <==>
                  NonDecreasing(Times(s)) || NonIncreasing(Times(s)))
  {
    var s := Stamps(row, wire);
    DeltasAreForward(s, wire, |s|);
    assert Times(s)[..|s|] == Times(s);
    ForwardAtLeastDistance(Times(s));
  }

  /** With the score stamp and ordered stamps, as the documentation promises. */
  lemma {:induction false} OrderedRowRunsForward(row: Row, wire: int)
    requires row.score.Some? && wire <= OrElse(row.compute, wire) <= row.score.value <= SpanEnd(row, wire)
    ensures RunsForward(row, wire)
  {
  }

  /** Without the score stamp the span starts at the wire, and the first node can precede the
      compute event. */
  lemma {:induction false} MissingScoreTurnsBack()
    ensures var row := Row(Some(0), Some(90), None, None, Some(100), true, true, false);
            !NonDecreasing(Times(Stamps(row, 0)))
  {
    var row := Row(Some(0), Some(90), None, None, Some(100), true, true, false);
    assert Nodes(row) == [Forensic, Auditor];
    StreamForward(row, 0);
  }
}
