/** The regression detector of the evaluation board: for each prompt version, the newest run
    against the one before it. */
module Regressions {

  import opened Reals
  import opened Sorting
  import opened Wrappers

  datatype Metric = FreezeCorrectness | Faithfulness | AnswerRelevancy

  /** An evaluation run; `created` is its creation time in milliseconds. */
  datatype Run = Run(version: string, created: real, freezeCorrectness: Option<real>, faithfulness: Option<real>,
                     answerRelevancy: Option<real>)
  {
    function Get(metric: Metric): Option<real> {
      match metric
      case FreezeCorrectness => freezeCorrectness
      case Faithfulness => faithfulness
      case AnswerRelevancy => answerRelevancy
    }
  }

  datatype Regression = Regression(version: string, metric: Metric, prev: real, curr: real)

  const REGRESSION_THRESHOLD := 0.05

  const METRIC_KEYS: seq<Metric> := [FreezeCorrectness, Faithfulness, AnswerRelevancy]

  // ----- What the code computes -----

  function HasVersion(v: string): Run -> bool {
    (r: Run) => r.version == v
  }

  function Created(): Run -> real {
    (r: Run) => r.created
  }

  function OfVersion(runs: seq<Run>, v: string): seq<Run> {
    Filter(runs, HasVersion(v))
  }

  /** The versions in the order in which they are first seen. */
  function Versions(runs: seq<Run>): seq<string> {
    if runs == [] then []
    else
      var before, last := Versions(runs[..|runs| - 1]), runs[|runs| - 1];
      if last.version in before then before else before + [last.version]
  }

  predicate Drops(prev: Option<real>, curr: Option<real>) {
    && prev.Some? && curr.Some?
    && prev.value > 0.0
    && (prev.value - curr.value) / prev.value >= REGRESSION_THRESHOLD
  }

  function Compare(curr: Run, prev: Run, v: string, metrics: seq<Metric>): seq<Regression> {
    if metrics == [] then []
    else
      var n := |metrics| - 1;
      var k := metrics[n];
      Compare(curr, prev, v, metrics[..n])
      + if Drops(prev.Get(k), curr.Get(k)) then [Regression(v, k, prev.Get(k).value, curr.Get(k).value)] else []
  }

  function VersionReport(vRuns: seq<Run>, v: string): seq<Regression> {
    if |vRuns| < 2 then []
    else
      var sorted := SortBy(vRuns, Created());
      SortMeaning(vRuns, Created());
      Compare(sorted[0], sorted[1], v, METRIC_KEYS)
  }

  function ReportOn(runs: seq<Run>, versions: seq<string>): seq<Regression> {
    if versions == [] then []
    else
      var n := |versions| - 1;
      ReportOn(runs, versions[..n]) + VersionReport(OfVersion(runs, versions[n]), versions[n])
  }

  function Report(runs: seq<Run>): seq<Regression> {
    ReportOn(runs, Versions(runs))
  }

  lemma {:induction false} FilterSnoc<T>(s: seq<T>, x: T, p: T -> bool)
    ensures Filter(s + [x], p) == Filter(s, p) + if p(x) then [x] else []
  {
    var tail := if p(x) then [x] else [];
    if s == [] {
      assert s + [x] == [x] && [x][1..] == [];
    } else {
      var head := if p(s[0]) then [s[0]] else [];
      var middle := Filter(s[1..], p);
      assert (s + [x])[1..] == s[1..] + [x];
      FilterSnoc(s[1..], x, p);
      assert (head + middle) + tail == head + (middle + tail);
    }
  }

  function At(byVersion: map<string, seq<Run>>, v: string): seq<Run> {
    if v in byVersion then byVersion[v] else []
  }

  ghost predicate Ordered(runs: seq<Run>, byVersion: map<string, seq<Run>>, order: seq<string>) {
    order == Versions(runs) && forall v :: v in byVersion <==> v in order
  }

  /** The insertion-ordered map of the code: its keys in order, and the runs of each. */
  ghost predicate Grouped(runs: seq<Run>, byVersion: map<string, seq<Run>>, order: seq<string>) {
    Ordered(runs, byVersion, order) && forall v :: At(byVersion, v) == OfVersion(runs, v)
  }

  lemma {:induction false} OrderStep(runs: seq<Run>, r: Run, byVersion: map<string, seq<Run>>, order: seq<string>, arr: seq<Run>)
    requires Ordered(runs, byVersion, order)
    ensures Ordered(runs + [r], byVersion[r.version := arr], if r.version in byVersion then order else order + [r.version])
  {
    var after := runs + [r];
    assert after[..|after| - 1] == runs && after[|after| - 1] == r;
  }

  lemma {:induction false} OfVersionSnoc(runs: seq<Run>, r: Run, v: string)
    ensures OfVersion(runs + [r], v) == OfVersion(runs, v) + if r.version == v then [r] else []
  {
    FilterSnoc(runs, r, HasVersion(v));
  }

  lemma {:induction false} GroupStep(runs: seq<Run>, r: Run, byVersion: map<string, seq<Run>>, order: seq<string>)
    requires Grouped(runs, byVersion, order)
    ensures Grouped(runs + [r], byVersion[r.version := At(byVersion, r.version) + [r]],
                    if r.version in byVersion then order else order + [r.version])
  {
    var after := byVersion[r.version := At(byVersion, r.version) + [r]];
    OrderStep(runs, r, byVersion, order, At(byVersion, r.version) + [r]);
    forall v
      ensures At(after, v) == OfVersion(runs + [r], v)
    {
      OfVersionSnoc(runs, r, v);
      assert At(byVersion, v) == OfVersion(runs, v);
    }
  }

  /** The map the code builds; Dafny's maps have no order, so the order of its keys is kept
      beside it. */
  method GroupByVersion(runs: seq<Run>) returns (byVersion: map<string, seq<Run>>, order: seq<string>)
    ensures Grouped(runs, byVersion, order)
  {
    byVersion, order := map[], [];
    for i := 0 to |runs|
      invariant Grouped(runs[..i], byVersion, order)
    {
      var r := runs[i];
      GroupStep(runs[..i], r, byVersion, order);
      assert runs[..i + 1] == runs[..i] + [r];
      var arr := At(byVersion, r.version);
      order := if r.version in byVersion then order else order + [r.version];
      byVersion := byVersion[r.version := arr + [r]];
    }
    assert runs[..|runs|] == runs;
  }

  /** The detector: group the runs by version, then compare the two newest of each group. */
  method DetectRegressions(runs: seq<Run>) returns (out: seq<Regression>)
    ensures out == Report(runs)
  {
    var byVersion, order := GroupByVersion(runs);
    out := [];
    for j := 0 to |order|
      invariant out == ReportOn(runs, order[..j])
    {
      assert order[..j + 1][..j] == order[..j];
      assert order[j] in order && At(byVersion, order[j]) == OfVersion(runs, order[j]);
      var found := CompareNewest(byVersion[order[j]], order[j]);
      out := out + found;
    }
    assert order[..|order|] == order;
  }

  method CompareNewest(vRuns: seq<Run>, v: string) returns (out: seq<Regression>)
    ensures out == VersionReport(vRuns, v)
  {
    out := [];
    if |vRuns| >= 2 {
      var sorted := SortBy(vRuns, Created());
      SortMeaning(vRuns, Created());
      var curr, prev := sorted[0], sorted[1];
      for m := 0 to |METRIC_KEYS|
        invariant out == Compare(curr, prev, v, METRIC_KEYS[..m])
      {
        assert METRIC_KEYS[..m + 1][..m] == METRIC_KEYS[..m];
        var k := METRIC_KEYS[m];
        var c, p := curr.Get(k), prev.Get(k);
        if c.Some? && p.Some? && p.value > 0.0 && (p.value - c.value) / p.value >= REGRESSION_THRESHOLD {
          out := out + [Regression(v, k, p.value, c.value)];
        }
      }
      assert METRIC_KEYS[..|METRIC_KEYS|] == METRIC_KEYS;
    }
  }

  // ----- What it means -----

  function StampedAt(v: string, t: real): Run -> bool {
    (r: Run) => r.version == v && r.created == t
  }

  /** No two runs of one version were created at the same time. */
  ghost predicate DistinctTimes(runs: seq<Run>) {
    forall v, t :: |Filter(runs, StampedAt(v, t))| <= 1
  }

  ghost predicate Newest(runs: seq<Run>, c: Run) {
    c in runs && forall r :: r in runs && r.version == c.version ==> r.created <= c.created
  }

  /** `p` is the newest run of its version that is older than `c`. */
  ghost predicate Previous(runs: seq<Run>, c: Run, p: Run) {
    && p in runs && p.version == c.version && p.created < c.created
    && forall r :: r in runs && r.version == c.version && r.created < c.created ==> r.created <= p.created
  }

  /** A fall of at least five per cent from a positive score. */
  predicate Fell(prev: real, curr: real) {
    prev > 0.0 && curr <= 0.95 * prev
  }

  ghost predicate RegressedBetween(runs: seq<Run>, g: Regression, c: Run, p: Run) {
    && c.version == g.version && Newest(runs, c) && Previous(runs, c, p)
    && c.Get(g.metric) == Some(g.curr) && p.Get(g.metric) == Some(g.prev)
    && Fell(g.prev, g.curr)
  }

  ghost predicate Regressed(runs: seq<Run>, g: Regression) {
    exists c, p :: RegressedBetween(runs, g, c, p)
  }

  lemma {:induction false} DivisionThreshold(d: real, p: real, t: real)
    requires p > 0.0
    ensures d / p >= t <==> d >= t * p
  {
    var q := d / p;
    assert q * p == d;
    if q >= t {
      ScaleUp(t, q, p, t * p, d);
    } else {
      ScaleStrict(q, t, p, d, t * p);
    }
  }

  lemma {:induction false} DropsIsFell(prev: real, curr: real)
    ensures Drops(Some(prev), Some(curr)) <==> Fell(prev, curr)
  {
    if prev > 0.0 {
      DivisionThreshold(prev - curr, prev, REGRESSION_THRESHOLD);
    }
  }

  lemma {:induction false} FilterOne<T>(s: seq<T>, p: T -> bool, i: nat)
    requires i < |s| && p(s[i])
    ensures |Filter(s, p)| >= 1
  {
    if i > 0 {
      FilterOne(s[1..], p, i - 1);
    }
  }

  /** The runs of one version, newest first. */
  function Ranked(runs: seq<Run>, v: string): seq<Run> {
    SortBy(OfVersion(runs, v), Created())
  }

  lemma {:induction false} StampedOnce(runs: seq<Run>, r: Run, q: Run)
    requires DistinctTimes(runs) && r.version == q.version && r.created == q.created
    ensures multiset(runs)[r] <= 1
    ensures r in multiset(runs) && q in multiset(runs) ==> r == q
  {
    var p := StampedAt(r.version, r.created);
    var f := Filter(runs, p);
    FilterCount(runs, p, r);
    FilterCount(runs, p, q);
    if |f| == 1 {
      assert f == [f[0]];
    } else {
      assert f == [];
    }
  }

  lemma {:induction false} CompareMember(curr: Run, prev: Run, v: string, metrics: seq<Metric>, g: Regression)
    ensures g in Compare(curr, prev, v, metrics)
       <==> && g.version == v && g.metric in metrics
            && prev.Get(g.metric) == Some(g.prev) && curr.Get(g.metric) == Some(g.curr) && Fell(g.prev, g.curr)
  {
    if metrics != [] {
      var n := |metrics| - 1;
      CompareMember(curr, prev, v, metrics[..n], g);
      assert metrics == metrics[..n] + [metrics[n]];
      DropsIsFell(g.prev, g.curr);
    }
  }

  lemma {:induction false} AllMetrics(k: Metric)
    ensures k in METRIC_KEYS
  {
    match k
    case FreezeCorrectness => assert METRIC_KEYS[0] == k;
    case Faithfulness => assert METRIC_KEYS[1] == k;
    case AnswerRelevancy => assert METRIC_KEYS[2] == k;
  }

  lemma {:induction false} VersionsMember(runs: seq<Run>, r: Run)
    requires r in runs
    ensures r.version in Versions(runs)
  {
    var n := |runs| - 1;
    assert runs == runs[..n] + [runs[n]];
    if r in runs[..n] {
      VersionsMember(runs[..n], r);
    }
  }

  // ----- Whatever the times -----

  /** Run `i` is the newest of version `v`; of several, the one that arrived first. */
  ghost predicate Current(runs: seq<Run>, v: string, i: int) {
    Leads(runs, HasVersion(v), Created(), i)
  }

  ghost predicate ComparedAt(runs: seq<Run>, v: string, i: int, j: int) {
    Current(runs, v, i) && Current(Without(runs, i), v, j)
  }

  /** The comparison of the current run with the current one among all others. */
  ghost predicate FellAt(runs: seq<Run>, g: Regression, i: int, j: int) {
    && ComparedAt(runs, g.version, i, j)
    && Without(runs, i)[j].Get(g.metric) == Some(g.prev) && runs[i].Get(g.metric) == Some(g.curr)
    && Fell(g.prev, g.curr)
  }

  lemma {:induction false} TopTwo(runs: seq<Run>, v: string, i: int, j: int)
    requires ComparedAt(runs, v, i, j)
    ensures |OfVersion(runs, v)| == |Ranked(runs, v)| >= 2
    ensures Ranked(runs, v)[0] == runs[i] && Ranked(runs, v)[1] == Without(runs, i)[j]
  {
    SortPutsLeaderFirst(runs, HasVersion(v), Created(), i);
    SortPutsLeaderFirst(Without(runs, i), HasVersion(v), Created(), j);
    SortMeaning(OfVersion(runs, v), Created());
  }

  lemma {:induction false} CurrentExists(runs: seq<Run>, v: string) returns (i: nat)
    requires OfVersion(runs, v) != []
    ensures Current(runs, v, i)
  {
    if runs[0].version == v && forall j :: 0 <= j < |runs| && runs[j].version == v ==> runs[j].created <= runs[0].created {
      i := 0;
    } else {
      LaterRun(runs, v);
      var k := CurrentExists(runs[1..], v);
      i := k + 1;
      CurrentOfTail(runs, v, k);
    }
  }

  lemma {:induction false} LaterRun(runs: seq<Run>, v: string)
    requires OfVersion(runs, v) != []
    requires !(runs[0].version == v && forall j :: 0 <= j < |runs| && runs[j].version == v ==> runs[j].created <= runs[0].created)
    ensures OfVersion(runs[1..], v) != []
  {
    if runs[0].version == v {
      var j :| 0 <= j < |runs| && runs[j].version == v && runs[j].created > runs[0].created;
      FilterOne(runs[1..], HasVersion(v), j - 1);
    }
  }

  lemma {:induction false} CurrentOfTail(runs: seq<Run>, v: string, k: nat)
    requires runs != [] && Current(runs[1..], v, k)
    requires !(runs[0].version == v && forall j :: 0 <= j < |runs| && runs[j].version == v ==> runs[j].created <= runs[0].created)
    ensures Current(runs, v, k + 1)
  {
    var t := runs[1..];
    forall j | 0 <= j < |runs| && runs[j].version == v
      ensures runs[j].created < runs[k + 1].created || (runs[j].created == runs[k + 1].created && k + 1 <= j)
    {
      if j > 0 {
        assert t[j - 1] == runs[j];
      } else {
        var m :| 0 <= m < |runs| && runs[m].version == v && runs[m].created > runs[0].created;
        assert t[m - 1] == runs[m];
      }
    }
  }

  lemma {:induction false} OneFewer(runs: seq<Run>, v: string, i: nat)
    requires Current(runs, v, i)
    ensures |OfVersion(Without(runs, i), v)| == |OfVersion(runs, v)| - 1
  {
    SortPutsLeaderFirst(runs, HasVersion(v), Created(), i);
    SortMeaning(OfVersion(runs, v), Created());
    SortMeaning(OfVersion(Without(runs, i), v), Created());
  }

  lemma {:induction false} ComparisonExists(runs: seq<Run>, v: string) returns (i: nat, j: nat)
    requires |OfVersion(runs, v)| >= 2
    ensures ComparedAt(runs, v, i, j)
  {
    i := CurrentExists(runs, v);
    OneFewer(runs, v, i);
    j := CurrentExists(Without(runs, i), v);
  }

  lemma {:induction false} VersionFalls(runs: seq<Run>, v: string, g: Regression)
    ensures g in VersionReport(OfVersion(runs, v), v) <==> g.version == v && exists i, j :: FellAt(runs, g, i, j)
  {
    AllMetrics(g.metric);
    if |OfVersion(runs, v)| >= 2 {
      var i, j := ComparisonExists(runs, v);
      TopTwo(runs, v, i, j);
      CompareMember(runs[i], Without(runs, i)[j], v, METRIC_KEYS, g);
      if g in VersionReport(OfVersion(runs, v), v) {
        assert FellAt(runs, g, i, j);
      }
    }
    if g.version == v && exists i, j :: FellAt(runs, g, i, j) {
      var i, j :| FellAt(runs, g, i, j);
      TopTwo(runs, v, i, j);
      CompareMember(runs[i], Without(runs, i)[j], v, METRIC_KEYS, g);
    }
  }

  lemma {:induction false} ReportOnFalls(runs: seq<Run>, versions: seq<string>, g: Regression)
    ensures g in ReportOn(runs, versions) <==> g.version in versions && exists i, j :: FellAt(runs, g, i, j)
  {
    hide FellAt, VersionReport;
    if versions != [] {
      var n := |versions| - 1;
      ReportOnFalls(runs, versions[..n], g);
      VersionFalls(runs, versions[n], g);
      assert versions == versions[..n] + [versions[n]];
    }
  }

  /** Sound and complete for all runs: a metric is reported exactly when it fell by at least five
      per cent to the newest run of its version from the newest of the others, where of runs made
      at the same time the first to arrive counts as the newer. */
  lemma {:induction false} ReportExact(runs: seq<Run>, g: Regression)
    ensures g in Report(runs) <==> exists i, j :: FellAt(runs, g, i, j)
  {
    ReportOnFalls(runs, Versions(runs), g);
    if exists i, j :: FellAt(runs, g, i, j) {
      var i, j :| FellAt(runs, g, i, j);
      VersionsMember(runs, runs[i]);
    }
  }

  // ----- When the order of arrival matters -----

  /** In some order of arrival `c` is compared with `p`: both are there, none of their version is
      newer than `c`, and none of the others is newer than `p`. */
  ghost predicate Contend(runs: seq<Run>, v: string, c: Run, p: Run) {
    && c.version == v && p.version == v && multiset{c, p} <= multiset(runs)
    && (forall r :: r in multiset(runs) && r.version == v ==> r.created <= c.created)
    && (forall r :: r in multiset(runs) - multiset{c} && r.version == v ==> r.created <= p.created)
  }

  /** What comparing the two says about a metric: the two scores if it fell. */
  function Outcome(c: Run, p: Run, k: Metric): Option<(real, real)> {
    var before, after := p.Get(k), c.Get(k);
    if before.Some? && after.Some? && Fell(before.value, after.value) then Some((before.value, after.value)) else None
  }

  /** What a caller can check: all comparisons that ties leave open come to the same. */
  ghost predicate Undisputed(runs: seq<Run>, v: string) {
    forall c, p, c', p', k :: Contend(runs, v, c, p) && Contend(runs, v, c', p') ==> Outcome(c, p, k) == Outcome(c', p', k)
  }

  ghost predicate SameReport(a: seq<Run>, b: seq<Run>) {
    forall g :: g in Report(a) <==> g in Report(b)
  }

  /** The report says the same in every order of arrival. */
  ghost predicate OrderFree(runs: seq<Run>) {
    forall b :: multiset(b) == multiset(runs) ==> SameReport(runs, b)
  }

  lemma {:induction false} WithoutCounts(runs: seq<Run>, i: nat)
    requires i < |runs|
    ensures multiset(runs) == multiset{runs[i]} + multiset(Without(runs, i))
  {
    assert runs == runs[..i] + ([runs[i]] + runs[i + 1..]);
    assert multiset(runs) == multiset(runs[..i]) + (multiset{runs[i]} + multiset(runs[i + 1..]));
  }

  lemma {:induction false} CurrentIsNewest(runs: seq<Run>, v: string, i: nat, r: Run)
    requires Current(runs, v, i) && r in multiset(runs) && r.version == v
    ensures r.created <= runs[i].created
  {
    assert r in runs;
    var j :| 0 <= j < |runs| && runs[j] == r;
    assert HasVersion(v)(runs[j]);
  }

  lemma {:induction false} ComparedContend(runs: seq<Run>, v: string, i: nat, j: nat)
    requires ComparedAt(runs, v, i, j)
    ensures Contend(runs, v, runs[i], Without(runs, i)[j])
  {
    var c, rest := runs[i], Without(runs, i);
    var p := rest[j];
    WithoutCounts(runs, i);
    WithoutCounts(rest, j);
    assert multiset(runs) - multiset{c} == multiset(rest);
    forall r | r in multiset(runs) && r.version == v
      ensures r.created <= c.created
    {
      CurrentIsNewest(runs, v, i, r);
    }
    forall r | r in multiset(rest) && r.version == v
      ensures r.created <= p.created
    {
      CurrentIsNewest(rest, v, j, r);
    }
  }

  lemma {:induction false} TakeOut(runs: seq<Run>, r: Run) returns (rest: seq<Run>)
    requires r in multiset(runs)
    ensures multiset(runs) == multiset{r} + multiset(rest)
  {
    var i :| 0 <= i < |runs| && runs[i] == r;
    WithoutCounts(runs, i);
    rest := Without(runs, i);
  }

  lemma {:induction false} PairThere(m: multiset<Run>, c: Run, p: Run)
    requires multiset{c, p} <= m
    ensures c in m && p in m - multiset{c}
  {
    assert m[c] >= multiset{c, p}[c] && m[p] >= multiset{c, p}[p];
  }

  /** Put in front, the two contenders are compared. */
  lemma {:induction false} ContendersInFront(runs: seq<Run>, v: string, c: Run, p: Run) returns (b: seq<Run>)
    requires Contend(runs, v, c, p)
    ensures multiset(b) == multiset(runs) && ComparedAt(b, v, 0, 0) && b[0] == c && Without(b, 0)[0] == p
  {
    PairThere(multiset(runs), c, p);
    var q := TakeOut(runs, c);
    assert multiset(q) == multiset(runs) - multiset{c};
    var others := TakeOut(q, p);
    var rest := [p] + others;
    b := [c] + rest;
    assert multiset(rest) == multiset(q) && multiset(b) == multiset(runs);
    assert Without(b, 0) == rest;
    FirstIsCurrent(b, v);
    FirstIsCurrent(rest, v);
  }

  lemma {:induction false} FirstIsCurrent(runs: seq<Run>, v: string)
    requires runs != [] && runs[0].version == v
    requires forall r :: r in multiset(runs) && r.version == v ==> r.created <= runs[0].created
    ensures Current(runs, v, 0)
  {
    forall j | 0 <= j < |runs| && runs[j].version == v
      ensures runs[j].created <= runs[0].created
    {
      assert runs[j] in multiset(runs);
    }
  }

  /** A report, in terms of any comparison that is made. */
  lemma {:induction false} ReportByOutcome(runs: seq<Run>, v: string, i: nat, j: nat, k: Metric, x: real, y: real)
    requires ComparedAt(runs, v, i, j)
    ensures Regression(v, k, x, y) in Report(runs) <==> Outcome(runs[i], Without(runs, i)[j], k) == Some((x, y))
  {
    var g := Regression(v, k, x, y);
    ReportExact(runs, g);
    if FellAt(runs, g, i, j) {
      assert Outcome(runs[i], Without(runs, i)[j], k) == Some((x, y));
    }
    if exists m, n :: FellAt(runs, g, m, n) {
      var m, n :| FellAt(runs, g, m, n);
      TopTwo(runs, v, i, j);
      TopTwo(runs, v, m, n);
    }
  }

  lemma {:induction false} DisputeShows(runs: seq<Run>, v: string, c: Run, p: Run, c': Run, p': Run, k: Metric)
    requires OrderFree(runs) && Contend(runs, v, c, p) && Contend(runs, v, c', p')
    ensures Outcome(c, p, k) == Outcome(c', p', k)
  {
    var b := ContendersInFront(runs, v, c, p);
    var b' := ContendersInFront(runs, v, c', p');
    assert SameReport(runs, b) && SameReport(runs, b');
    OutcomeShown(b, b', v, Outcome(c, p, k), Outcome(c', p', k), k);
  }

  lemma {:induction false} OutcomeShown(b: seq<Run>, b': seq<Run>, v: string, o: Option<(real, real)>, o': Option<(real, real)>, k: Metric)
    requires ComparedAt(b, v, 0, 0) && ComparedAt(b', v, 0, 0)
    requires o == Outcome(b[0], Without(b, 0)[0], k) && o' == Outcome(b'[0], Without(b', 0)[0], k)
    requires forall g :: g in Report(b) <==> g in Report(b')
    ensures o == o'
  {
    hide Report, ComparedAt, Outcome;
    if o.Some? {
      ReportByOutcome(b, v, 0, 0, k, o.value.0, o.value.1);
      ReportByOutcome(b', v, 0, 0, k, o.value.0, o.value.1);
    } else if o'.Some? {
      ReportByOutcome(b, v, 0, 0, k, o'.value.0, o'.value.1);
      ReportByOutcome(b', v, 0, 0, k, o'.value.0, o'.value.1);
    }
  }

  lemma {:induction false} UndisputedKept(a: seq<Run>, b: seq<Run>, g: Regression)
    requires multiset(a) == multiset(b) && Undisputed(a, g.version) && g in Report(a)
    ensures g in Report(b)
  {
    ReportExact(a, g);
    var i, j :| FellAt(a, g, i, j);
    var v := g.version;
    TopTwo(a, v, i, j);
    FilterLength(a, b, HasVersion(v), HasVersion(v));
    var m, n := ComparisonExists(b, v);
    ComparedContend(a, v, i, j);
    ComparedContend(b, v, m, n);
    assert Contend(a, v, b[m], Without(b, m)[n]);
    assert Outcome(a[i], Without(a, i)[j], g.metric) == Some((g.prev, g.curr));
    ReportByOutcome(b, v, m, n, g.metric, g.prev, g.curr);
  }

  lemma {:induction false} UndisputedPermutes(a: seq<Run>, b: seq<Run>, v: string)
    requires multiset(a) == multiset(b) && Undisputed(a, v)
    ensures Undisputed(b, v)
  {
    assert forall c, p :: Contend(b, v, c, p) ==> Contend(a, v, c, p);
  }

  /** Exactly when the order of the runs does not matter: when for each version all comparisons
      that ties leave open come to the same. */
  lemma {:induction false} OrderFreeExactly(runs: seq<Run>)
    ensures OrderFree(runs) <==> forall v :: Undisputed(runs, v)
  {
    if OrderFree(runs) {
      forall v, c, p, c', p', k | Contend(runs, v, c, p) && Contend(runs, v, c', p')
        ensures Outcome(c, p, k) == Outcome(c', p', k)
      {
        DisputeShows(runs, v, c, p, c', p', k);
      }
    }
    if forall v :: Undisputed(runs, v) {
      forall b, g | multiset(b) == multiset(runs)
        ensures g in Report(runs) <==> g in Report(b)
      {
        UndisputedPermutes(runs, b, g.version);
        if g in Report(runs) {
          UndisputedKept(runs, b, g);
        }
        if g in Report(b) {
          UndisputedKept(b, runs, g);
        }
      }
    }
  }

  /** A tie for the newest run is undisputed only if nothing fell between the tied runs. */
  lemma {:induction false} TieMustNotFall(runs: seq<Run>, v: string, c: Run, p: Run, k: Metric)
    requires Undisputed(runs, v) && Contend(runs, v, c, p) && c.created == p.created
    ensures Outcome(c, p, k) == None
  {
    assert multiset{c, p} == multiset{p, c};
    forall r | r in multiset(runs) - multiset{p} && r.version == v
      ensures r.created <= c.created
    {
      assert r in multiset(runs);
    }
    assert Contend(runs, v, p, c);
    assert Outcome(c, p, k) == Outcome(p, c, k);
  }

  /** With distinct times nothing is left open. */
  lemma {:induction false} DistinctUndisputed(runs: seq<Run>, v: string)
    requires DistinctTimes(runs)
    ensures Undisputed(runs, v)
  {
    forall c, p, c', p' | Contend(runs, v, c, p) && Contend(runs, v, c', p')
      ensures c == c' && p == p'
    {
      ContendersUnique(runs, v, c, p, c', p');
    }
  }

  lemma {:induction false} ContendersUnique(runs: seq<Run>, v: string, c: Run, p: Run, c': Run, p': Run)
    requires DistinctTimes(runs) && Contend(runs, v, c, p) && Contend(runs, v, c', p')
    ensures c == c' && p == p'
  {
    var m := multiset(runs);
    assert m[c] >= multiset{c, p}[c] && m[p] >= multiset{c, p}[p];
    assert m[c'] >= multiset{c', p'}[c'] && m[p'] >= multiset{c', p'}[p'];
    StampedOnce(runs, c, c');
    assert p in m - multiset{c} && p' in m - multiset{c};
    StampedOnce(runs, p, p');
  }

  lemma {:induction false} ContendersByTime(runs: seq<Run>, v: string, c: Run, p: Run)
    requires DistinctTimes(runs)
    ensures Contend(runs, v, c, p) <==> c.version == v && Newest(runs, c) && Previous(runs, c, p)
  {
    var m := multiset(runs);
    StampedOnce(runs, c, c);
    if c.version == p.version && c.created == p.created {
      StampedOnce(runs, c, p);
    }
    if Contend(runs, v, c, p) {
      assert m[c] >= multiset{c, p}[c] && m[p] >= multiset{c, p}[p];
      assert forall r :: r in runs && r.created < c.created ==> r in m - multiset{c};
      assert forall r :: r in runs ==> r in m;
    }
    if c.version == v && Newest(runs, c) && Previous(runs, c, p) {
      assert c in m && p in m && multiset{c, p} <= m;
      forall r | r in m - multiset{c} && r.version == v
        ensures r.created <= p.created
      {
        assert r in runs && r != c;
        if r.created == c.created {
          StampedOnce(runs, r, c);
        }
      }
    }
  }

  /** With distinct times, by time alone: a metric is reported exactly when it fell by at least
      five per cent from the second newest run of its version to the newest, both scores being
      there and the earlier positive. */
  lemma {:induction false} ReportByTime(runs: seq<Run>, g: Regression)
    requires DistinctTimes(runs)
    ensures g in Report(runs) <==> Regressed(runs, g)
  {
    var v := g.version;
    if g in Report(runs) {
      ReportExact(runs, g);
      var i, j :| FellAt(runs, g, i, j);
      ComparedContend(runs, v, i, j);
      ContendersByTime(runs, v, runs[i], Without(runs, i)[j]);
      assert RegressedBetween(runs, g, runs[i], Without(runs, i)[j]);
    }
    if Regressed(runs, g) {
      var c, p :| RegressedBetween(runs, g, c, p);
      ContendersByTime(runs, v, c, p);
      var b := ContendersInFront(runs, v, c, p);
      TopTwo(b, v, 0, 0);
      FilterLength(b, runs, HasVersion(v), HasVersion(v));
      var i, j := ComparisonExists(runs, v);
      ComparedContend(runs, v, i, j);
      ContendersUnique(runs, v, c, p, runs[i], Without(runs, i)[j]);
      ReportByOutcome(runs, v, i, j, g.metric, g.prev, g.curr);
    }
  }

  /** With distinct times the order in which the runs arrive does not matter. */
  lemma {:induction false} ReportOrderFree(a: seq<Run>, b: seq<Run>, g: Regression)
    requires multiset(a) == multiset(b) && DistinctTimes(a)
    ensures g in Report(a) <==> g in Report(b)
  {
    forall v
      ensures Undisputed(a, v)
    {
      DistinctUndisputed(a, v);
    }
    OrderFreeExactly(a);
    assert SameReport(a, b);
  }

  // ----- Ties and repetitions -----

  /** No metric of a version is reported twice. */
  ghost predicate Unrepeated(out: seq<Regression>) {
    forall i, j :: 0 <= i < j < |out| ==> out[i].version != out[j].version || out[i].metric != out[j].metric
  }

  lemma {:induction false} CompareUnrepeated(curr: Run, prev: Run, v: string, metrics: seq<Metric>)
    requires forall i, j :: 0 <= i < j < |metrics| ==> metrics[i] != metrics[j]
    ensures Unrepeated(Compare(curr, prev, v, metrics))
  {
    if metrics != [] {
      var n := |metrics| - 1;
      var before := Compare(curr, prev, v, metrics[..n]);
      CompareUnrepeated(curr, prev, v, metrics[..n]);
      forall i | 0 <= i < |before|
        ensures before[i].metric != metrics[n]
      {
        CompareMember(curr, prev, v, metrics[..n], before[i]);
      }
    }
  }

  lemma {:induction false} VersionReportUnrepeated(vRuns: seq<Run>, v: string)
    ensures Unrepeated(VersionReport(vRuns, v))
    ensures forall i :: 0 <= i < |VersionReport(vRuns, v)| ==> VersionReport(vRuns, v)[i].version == v
  {
    if |vRuns| >= 2 {
      var s := SortBy(vRuns, Created());
      SortMeaning(vRuns, Created());
      CompareUnrepeated(s[0], s[1], v, METRIC_KEYS);
      var out := VersionReport(vRuns, v);
      forall i | 0 <= i < |out|
        ensures out[i].version == v
      {
        CompareMember(s[0], s[1], v, METRIC_KEYS, out[i]);
      }
    }
  }

  lemma {:induction false} ReportOnUnrepeated(runs: seq<Run>, versions: seq<string>)
    requires forall i, j :: 0 <= i < j < |versions| ==> versions[i] != versions[j]
    ensures Unrepeated(ReportOn(runs, versions))
    ensures forall i :: 0 <= i < |ReportOn(runs, versions)| ==> ReportOn(runs, versions)[i].version in versions
  {
    if versions != [] {
      var n := |versions| - 1;
      ReportOnUnrepeated(runs, versions[..n]);
      VersionReportUnrepeated(OfVersion(runs, versions[n]), versions[n]);
      assert versions[n] !in versions[..n];
    }
  }

  lemma {:induction false} VersionsDistinct(runs: seq<Run>)
    ensures forall i, j :: 0 <= i < j < |Versions(runs)| ==> Versions(runs)[i] != Versions(runs)[j]
  {
    if runs != [] {
      VersionsDistinct(runs[..|runs| - 1]);
    }
  }

  /** Whatever the runs, a metric of a version is reported at most once. */
  lemma {:induction false} ReportUnrepeated(runs: seq<Run>)
    ensures Unrepeated(Report(runs))
  {
    VersionsDistinct(runs);
    ReportOnUnrepeated(runs, Versions(runs));
  }

  // ----- The order of the report, and which score is which -----

  /** What one comparison of two scores adds to the report. */
  function Fall(v: string, k: Metric, prev: Option<real>, curr: Option<real>): seq<Regression> {
    if prev.Some? && curr.Some? && prev.value > 0.0 && curr.value <= 0.95 * prev.value
    then [Regression(v, k, prev.value, curr.value)] else []
  }

  lemma {:induction false} CompareSnoc(curr: Run, prev: Run, v: string, metrics: seq<Metric>, k: Metric)
    ensures Compare(curr, prev, v, []) == []
    ensures Compare(curr, prev, v, metrics + [k]) == Compare(curr, prev, v, metrics) + Fall(v, k, prev.Get(k), curr.Get(k))
  {
    assert (metrics + [k])[..|metrics|] == metrics;
    if prev.Get(k).Some? && curr.Get(k).Some? {
      DropsIsFell(prev.Get(k).value, curr.Get(k).value);
    }
  }

  /** Two runs are compared on three scores, in this order. */
  lemma {:induction false} ThreeScores(c: Run, p: Run, v: string)
    ensures Compare(c, p, v, METRIC_KEYS)
         == Fall(v, FreezeCorrectness, p.freezeCorrectness, c.freezeCorrectness)
            + Fall(v, Faithfulness, p.faithfulness, c.faithfulness)
            + Fall(v, AnswerRelevancy, p.answerRelevancy, c.answerRelevancy)
  {
    hide Compare, Fall;
    CompareSnoc(c, p, v, [], FreezeCorrectness);
    CompareSnoc(c, p, v, [FreezeCorrectness], Faithfulness);
    CompareSnoc(c, p, v, [FreezeCorrectness, Faithfulness], AnswerRelevancy);
    assert [] + [FreezeCorrectness] == [FreezeCorrectness];
    assert [FreezeCorrectness] + [Faithfulness] == [FreezeCorrectness, Faithfulness];
    assert [FreezeCorrectness, Faithfulness] + [AnswerRelevancy] == METRIC_KEYS;
  }

  /** The whole report of one version, for any runs: its newest run against the newest of the others. */
  lemma {:induction false} VersionFallsInOrder(runs: seq<Run>, v: string, i: nat, j: nat)
    requires ComparedAt(runs, v, i, j)
    ensures var c, p := runs[i], Without(runs, i)[j];
            VersionReport(OfVersion(runs, v), v)
            == Fall(v, FreezeCorrectness, p.freezeCorrectness, c.freezeCorrectness)
               + Fall(v, Faithfulness, p.faithfulness, c.faithfulness)
               + Fall(v, AnswerRelevancy, p.answerRelevancy, c.answerRelevancy)
  {
    hide Fall, Compare;
    TopTwo(runs, v, i, j);
    ThreeScores(runs[i], Without(runs, i)[j], v);
  }

  /** A run of `v` arrives before any of `w`. */
  ghost predicate SeenBefore(runs: seq<Run>, v: string, w: string) {
    exists a :: 0 <= a < |runs| && runs[a].version == v && forall b :: 0 <= b <= a ==> runs[b].version != w
  }

  lemma {:induction false} VersionSeen(runs: seq<Run>, v: string)
    requires v in Versions(runs)
    ensures exists a :: 0 <= a < |runs| && runs[a].version == v
  {
    var n := |runs| - 1;
    if v in Versions(runs[..n]) {
      VersionSeen(runs[..n], v);
      var a :| 0 <= a < n && runs[..n][a].version == v;
      assert runs[a].version == v;
    } else {
      assert runs[n].version == v;
    }
  }

  lemma {:induction false} SeenStillBefore(runs: seq<Run>, n: nat, v: string, w: string)
    requires n <= |runs| && SeenBefore(runs[..n], v, w)
    ensures SeenBefore(runs, v, w)
  {
    var p := runs[..n];
    var a :| 0 <= a < |p| && p[a].version == v && forall b :: 0 <= b <= a ==> p[b].version != w;
    assert runs[a].version == v;
    assert forall b :: 0 <= b <= a ==> runs[b] == p[b];
  }

  lemma {:induction false} NewVersionLast(runs: seq<Run>, v: string)
    requires runs != [] && v in Versions(runs[..|runs| - 1]) && runs[|runs| - 1].version !in Versions(runs[..|runs| - 1])
    ensures SeenBefore(runs, v, runs[|runs| - 1].version)
  {
    var p, w := runs[..|runs| - 1], runs[|runs| - 1].version;
    VersionSeen(p, v);
    var a :| 0 <= a < |p| && p[a].version == v;
    forall b | 0 <= b <= a
      ensures runs[b].version != w
    {
      assert p[b] in p;
      VersionsMember(p, p[b]);
    }
    assert runs[a].version == v;
  }

  /** The versions are listed in the order in which they are first seen. */
  lemma {:induction false} VersionsInOrder(runs: seq<Run>)
    ensures forall i, j :: 0 <= i < j < |Versions(runs)| ==> SeenBefore(runs, Versions(runs)[i], Versions(runs)[j])
  {
    if runs != [] {
      var n := |runs| - 1;
      var before, vs := Versions(runs[..n]), Versions(runs);
      VersionsInOrder(runs[..n]);
      forall i, j | 0 <= i < j < |vs|
        ensures SeenBefore(runs, vs[i], vs[j])
      {
        if j < |before| {
          SeenStillBefore(runs, n, vs[i], vs[j]);
        } else {
          NewVersionLast(runs, vs[i]);
        }
      }
    }
  }

  lemma {:induction false} ReportOnOrder(runs: seq<Run>, versions: seq<string>)
    requires forall i, j :: 0 <= i < j < |versions| ==> SeenBefore(runs, versions[i], versions[j])
    ensures forall i :: 0 <= i < |ReportOn(runs, versions)| ==> ReportOn(runs, versions)[i].version in versions
    ensures forall i, j :: 0 <= i < j < |ReportOn(runs, versions)| ==>
              ReportOn(runs, versions)[i].version == ReportOn(runs, versions)[j].version
              || SeenBefore(runs, ReportOn(runs, versions)[i].version, ReportOn(runs, versions)[j].version)
  {
    hide SeenBefore, VersionReport;
    if versions != [] {
      var n := |versions| - 1;
      var prior, tail := ReportOn(runs, versions[..n]), VersionReport(OfVersion(runs, versions[n]), versions[n]);
      ReportOnOrder(runs, versions[..n]);
      VersionReportUnrepeated(OfVersion(runs, versions[n]), versions[n]);
      assert ReportOn(runs, versions) == prior + tail;
      assert forall i :: 0 <= i < |tail| ==> tail[i].version == versions[n];
      assert forall i :: 0 <= i < |prior| ==> prior[i].version in versions[..n];
    }
  }

  /** The report lists the versions in the order in which they are first seen. */
  lemma {:induction false} ReportInOrder(runs: seq<Run>, i: nat, j: nat)
    requires i < j < |Report(runs)| && Report(runs)[i].version != Report(runs)[j].version
    ensures SeenBefore(runs, Report(runs)[i].version, Report(runs)[j].version)
  {
    hide SeenBefore;
    VersionsInOrder(runs);
    ReportOnOrder(runs, Versions(runs));
  }

  lemma {:induction false} PairVersions(a: Run, b: Run)
    requires a.version == b.version
    ensures Versions([a, b]) == [a.version] && OfVersion([a, b], a.version) == [a, b]
  {
    assert [a, b][..1] == [a] && [a][..0] == [];
    assert Versions([a]) == [a.version];
    assert [a, b][1..] == [b];
    assert Filter([b], HasVersion(a.version)) == [b];
  }

  lemma {:induction false} PairSorted(a: Run, b: Run)
    requires a.created == b.created
    ensures SortBy([a, b], Created()) == [a, b]
  {
    assert [a, b][1..] == [b];
    assert SortBy([b], Created()) == [b];
  }

  lemma {:induction false} PairReport(a: Run, b: Run)
    requires a.version == b.version && a.created == b.created
    ensures Report([a, b]) == Compare(a, b, a.version, METRIC_KEYS)
  {
    PairVersions(a, b);
    PairSorted(a, b);
    var vs := [a.version];
    assert vs[..0] == [] && ReportOn([a, b], []) == [];
    assert ReportOn([a, b], vs) == ReportOn([a, b], vs[..0]) + VersionReport(OfVersion([a, b], vs[0]), vs[0]);
  }

  /** Without distinct times the order does matter: two runs made in the same millisecond are
      compared in the order in which they arrive. */
  lemma {:induction false} TiesFollowArrival(better: Run, worse: Run, k: Metric, p: real, c: real)
    requires better.version == worse.version && better.created == worse.created
    requires better.Get(k) == Some(p) && worse.Get(k) == Some(c) && Fell(p, c)
    ensures Regression(better.version, k, p, c) in Report([worse, better])
    ensures Regression(better.version, k, p, c) !in Report([better, worse])
    ensures multiset([worse, better]) == multiset([better, worse])
  {
    var g := Regression(better.version, k, p, c);
    AllMetrics(k);
    PairReport(worse, better);
    PairReport(better, worse);
    CompareMember(worse, better, better.version, METRIC_KEYS, g);
    CompareMember(better, worse, better.version, METRIC_KEYS, g);
  }
}
