/** The consumer side of the engine: ticks in, frames out, against the features computed
    naively from the whole history. */
module Engine {

  import opened Bits
  import Bytes
  import opened Ticks
  import Ofi
  import RealizedVol
  import OfiSliding

  const FRAME_VERSION: nat := 2

  /** `clock` stands for the system clock: its reading when the frame of an index is finished. */
  datatype Config = Config(bucketWidth: int64, samples: nat, frameInterval: uint32, math: RealizedVol.Math, firstCaseId: nat,
                           clock: nat -> int64)
  {
    function Width(): (w: int64)
      ensures w > 0
    {
      if bucketWidth > 0 then bucketWidth else 1
    }

    function Capacity(): (c: nat)
      ensures 0 < c <= RealizedVol.MAX_SAMPLES
    {
      if samples == 0 || samples > RealizedVol.MAX_SAMPLES then RealizedVol.MAX_SAMPLES else samples
    }

    /** A frame after every N ticks; an interval of zero behaves as one. */
    function Interval(): (n: nat)
      ensures n > 0
    {
      if frameInterval == 0 then 1 else frameInterval
    }

    function Ret(): RealizedVol.Return {
      RealizedVol.LogReturn(math.log)
    }
  }

  datatype Frame = Frame(version: nat, windowCount: nat, ts: int64, symbol: seq<Bytes.byte>, ofi: int, realizedVol: real,
                         midPrice: real, totalVolume: int, caseId: nat, wireTs: int64, computeTs: int64)

  datatype Consumer = Consumer(table: Ofi.Table, vol: RealizedVol.Vol, sinceFrame: nat, frames: seq<Frame>)

  predicate Shape(cfg: Config, c: Consumer) {
    && |c.table.buckets| == Ofi.BUCKET_COUNT
    && |c.vol.ring| == RealizedVol.MAX_SAMPLES && c.vol.head < cfg.Capacity()
    && c.vol.count <= RealizedVol.MAX_SAMPLES
  }

  function NewConsumer(cfg: Config): (c: Consumer)
    ensures Shape(cfg, c)
  {
    Consumer(Ofi.EmptyTable(), RealizedVol.Initial(), 0, [])
  }

  /** Case ids count up from the engine's first one, in 64 bits. */
  function CaseId(cfg: Config, index: nat): nat {
    (cfg.firstCaseId + index) % WORD
  }

  function BuildFrame(cfg: Config, table: Ofi.Table, vol: RealizedVol.Vol, latest: Tick, index: nat): Frame
    requires |table.buckets| == Ofi.BUCKET_COUNT && vol.count <= |vol.ring|
  {
    var buys, sells := Ofi.WindowBuys(table, Ofi.BUCKET_COUNT), Ofi.WindowSells(table, Ofi.BUCKET_COUNT);
    Frame(FRAME_VERSION, vol.count, latest.ts, latest.symbol, buys - sells,
          RealizedVol.Volatility(cfg.math.sqrt, vol.ring[..vol.count]), latest.price, buys + sells,
          CaseId(cfg, index), latest.wireTs, cfg.clock(index))
  }

  /** One iteration of the consumer loop on a popped tick. */
  function Consume(cfg: Config, c: Consumer, t: Tick): (c': Consumer)
    requires Shape(cfg, c)
    ensures Shape(cfg, c')
  {
    var table := Ofi.Update(cfg.Width(), c.table, t);
    var vol := RealizedVol.Update(cfg.Ret(), cfg.Capacity(), c.vol, t.price);
    if c.sinceFrame + 1 >= cfg.frameInterval then
      Consumer(table, vol, 0, c.frames + [BuildFrame(cfg, table, vol, t, |c.frames|)])
    else
      Consumer(table, vol, c.sinceFrame + 1, c.frames)
  }

  function ConsumerAfter(cfg: Config, ticks: seq<Tick>): (c: Consumer)
    ensures Shape(cfg, c)
  {
    if ticks == [] then NewConsumer(cfg)
    else Consume(cfg, ConsumerAfter(cfg, ticks[..|ticks| - 1]), ticks[|ticks| - 1])
  }

  // ----- The naive features -----

  function Prices(ticks: seq<Tick>): (ps: seq<real>)
    ensures |ps| == |ticks|
    ensures forall i :: 0 <= i < |ps| ==> ps[i] == ticks[i].price
  {
    seq(|ticks|, i requires 0 <= i < |ticks| => ticks[i].price)
  }

  /** The frame a reader of the documentation would compute from the first ticks themselves:
      sums over the bucket window, deviation of the last returns, stamps of the last tick. */
  ghost function NaiveFrame(cfg: Config, ticks: seq<Tick>, index: nat): Frame
    requires ticks != []
  {
    var w := RealizedVol.Window(cfg.Ret(), cfg.Capacity(), Prices(ticks));
    var last := ticks[|ticks| - 1];
    Frame(FRAME_VERSION, |w|, last.ts, last.symbol,
          Ofi.SurvivingSum(cfg.Width(), ticks, Signed),
          RealizedVol.Volatility(cfg.math.sqrt, w), last.price,
          Ofi.SurvivingSum(cfg.Width(), ticks, BuyVolume) + Ofi.SurvivingSum(cfg.Width(), ticks, SellVolume),
          CaseId(cfg, index), last.wireTs, cfg.clock(index))
  }

  lemma {:induction false} KernelsAfter(cfg: Config, ticks: seq<Tick>)
    ensures ConsumerAfter(cfg, ticks).table == Ofi.After(cfg.Width(), ticks)
    ensures ConsumerAfter(cfg, ticks).vol == RealizedVol.After(cfg.Ret(), cfg.Capacity(), Prices(ticks))
  {
    if ticks == [] {
      assert Prices(ticks) == [];
    } else {
      var p := ticks[..|ticks| - 1];
      KernelsAfter(cfg, p);
      assert Prices(ticks)[..|ticks| - 1] == Prices(p);
    }
  }

  lemma {:induction false} FrameIsNaive(cfg: Config, ticks: seq<Tick>, index: nat)
    requires ticks != []
    ensures var c := ConsumerAfter(cfg, ticks);
            BuildFrame(cfg, c.table, c.vol, ticks[|ticks| - 1], index) == NaiveFrame(cfg, ticks, index)
  {
    KernelsAfter(cfg, ticks);
    Ofi.ReadingsAreSurvivors(cfg.Width(), ticks);
    RealizedVol.ArrayVolatility(cfg.Ret(), cfg.math.sqrt, cfg.Capacity(), Prices(ticks));
  }

  /** The clock decides the compute stamp of a frame and nothing else. */
  lemma {:induction false} ClockOnly(cfg: Config, clock: nat -> int64, ticks: seq<Tick>, index: nat)
    requires ticks != []
    ensures NaiveFrame(cfg, ticks, index).(computeTs := 0) == NaiveFrame(cfg.(clock := clock), ticks, index).(computeTs := 0)
  {
  }

  // ----- Cadence and determinism -----

  /** `f` is the k-th frame: the naive one on the first (k + 1) intervals of ticks. */
  ghost predicate IsFrame(cfg: Config, ticks: seq<Tick>, k: nat, f: Frame) {
    var m := (k + 1) * cfg.Interval();
    0 < m <= |ticks| && f == NaiveFrame(cfg, ticks[..m], k)
  }

  ghost predicate FramesOf(cfg: Config, ticks: seq<Tick>, frames: seq<Frame>) {
    forall k :: 0 <= k < |frames| ==> IsFrame(cfg, ticks, k, frames[k])
  }

  lemma {:induction false} IsFrameOfMore(cfg: Config, ticks: seq<Tick>, more: seq<Tick>, k: nat, f: Frame)
    requires IsFrame(cfg, ticks, k, f) && ticks <= more
    ensures IsFrame(cfg, more, k, f)
  {
    var m := (k + 1) * cfg.Interval();
    assert ticks[..m] == more[..m];
  }

  lemma {:induction false} FramesOfPrefix(cfg: Config, ticks: seq<Tick>, more: seq<Tick>, frames: seq<Frame>)
    requires FramesOf(cfg, ticks, frames) && ticks <= more
    ensures FramesOf(cfg, more, frames)
  {
    forall k | 0 <= k < |frames|
      ensures IsFrame(cfg, more, k, frames[k])
    {
      IsFrameOfMore(cfg, ticks, more, k, frames[k]);
    }
  }

  /** How many frames have been built, in terms of the interval. */
  ghost predicate Cadence(cfg: Config, n: nat, c: Consumer) {
    |c.frames| * cfg.Interval() + c.sinceFrame == n && c.sinceFrame < cfg.Interval()
  }

  lemma {:induction false} CadenceStep(cfg: Config, n: nat, c: Consumer, t: Tick)
    requires Shape(cfg, c) && Cadence(cfg, n, c)
    ensures Cadence(cfg, n + 1, Consume(cfg, c, t))
  {
    var m, k := |c.frames|, cfg.Interval();
    assert (m + 1) * k == m * k + k;
  }

  lemma {:induction false} CadenceDue(m: nat, k: nat, since: nat, n: nat)
    requires m * k + since == n && since + 1 == k
    ensures (m + 1) * k == n + 1
  {
  }

  lemma {:induction false} AfterSnoc(cfg: Config, p: seq<Tick>, t: Tick)
    ensures ConsumerAfter(cfg, p + [t]) == Consume(cfg, ConsumerAfter(cfg, p), t)
  {
    var ticks := p + [t];
    assert ticks[..|ticks| - 1] == p && ticks[|ticks| - 1] == t;
  }

  lemma {:induction false} DueFrame(cfg: Config, c: Consumer, t: Tick)
    requires Shape(cfg, c)
    ensures var c' := Consume(cfg, c, t);
            c'.frames == if c.sinceFrame + 1 >= cfg.frameInterval
                         then c.frames + [BuildFrame(cfg, c'.table, c'.vol, t, |c.frames|)] else c.frames
  {
  }

  lemma {:induction false} LastFrame(cfg: Config, ticks: seq<Tick>, k: nat)
    requires ticks != [] && (k + 1) * cfg.Interval() == |ticks|
    ensures IsFrame(cfg, ticks, k, NaiveFrame(cfg, ticks, k))
  {
    assert ticks[..|ticks|] == ticks;
  }

  lemma {:induction false} FramesOfAppend(cfg: Config, ticks: seq<Tick>, frames: seq<Frame>, f: Frame)
    requires FramesOf(cfg, ticks, frames) && IsFrame(cfg, ticks, |frames|, f)
    ensures FramesOf(cfg, ticks, frames + [f])
  {
    forall k | 0 <= k < |frames| + 1
      ensures IsFrame(cfg, ticks, k, (frames + [f])[k])
    {
      if k < |frames| {
        assert IsFrame(cfg, ticks, k, frames[k]);
      }
    }
  }

  /** When a frame is due it is the naive one on everything consumed so far. */
  lemma {:induction false} NewFrame(cfg: Config, p: seq<Tick>, t: Tick)
    requires ConsumerAfter(cfg, p).sinceFrame + 1 >= cfg.frameInterval
    ensures var frames := ConsumerAfter(cfg, p).frames;
            ConsumerAfter(cfg, p + [t]).frames == frames + [NaiveFrame(cfg, p + [t], |frames|)]
  {
    var c := ConsumerAfter(cfg, p);
    AfterSnoc(cfg, p, t);
    DueFrame(cfg, c, t);
    FrameIsNaive(cfg, p + [t], |c.frames|);
  }

  lemma {:induction false} FramesStep(cfg: Config, p: seq<Tick>, t: Tick)
    requires var c := ConsumerAfter(cfg, p); Cadence(cfg, |p|, c) && FramesOf(cfg, p, c.frames)
    ensures FramesOf(cfg, p + [t], ConsumerAfter(cfg, p + [t]).frames)
  {
    var c, ticks := ConsumerAfter(cfg, p), p + [t];
    FramesOfPrefix(cfg, p, ticks, c.frames);
    if c.sinceFrame + 1 >= cfg.frameInterval {
      NewFrame(cfg, p, t);
      CadenceDue(|c.frames|, cfg.Interval(), c.sinceFrame, |p|);
      LastFrame(cfg, ticks, |c.frames|);
      FramesOfAppend(cfg, ticks, c.frames, NaiveFrame(cfg, ticks, |c.frames|));
    } else {
      AfterSnoc(cfg, p, t);
      DueFrame(cfg, c, t);
    }
  }

  lemma {:induction false} FramesDetermined(cfg: Config, ticks: seq<Tick>)
    ensures FramesOf(cfg, ticks, ConsumerAfter(cfg, ticks).frames)
    ensures Cadence(cfg, |ticks|, ConsumerAfter(cfg, ticks))
  {
    if ticks != [] {
      var p, t := ticks[..|ticks| - 1], ticks[|ticks| - 1];
      assert ticks == p + [t];
      FramesDetermined(cfg, p);
      CadenceStep(cfg, |p|, ConsumerAfter(cfg, p), t);
      FramesStep(cfg, p, t);
    }
  }

  /** The number of frames is the number of ticks divided by the interval, and the counter that
      paces them never reaches 2^32. */
  lemma {:induction false} FrameCount(cfg: Config, ticks: seq<Tick>)
    ensures |ConsumerAfter(cfg, ticks).frames| == |ticks| / cfg.Interval()
    ensures ConsumerAfter(cfg, ticks).sinceFrame == |ticks| % cfg.Interval()
    ensures ConsumerAfter(cfg, ticks).sinceFrame + 1 < 0x1_0000_0000
  {
    FramesDetermined(cfg, ticks);
    var c, k := ConsumerAfter(cfg, ticks), cfg.Interval();
    assert |ticks| == k * |c.frames| + c.sinceFrame;
    ModUnique(|ticks|, |c.frames|, c.sinceFrame, k);
  }

  /** With timely ticks the order-flow fields are the plain sliding-window sums. */
  lemma {:induction false} TimelyFrame(cfg: Config, ticks: seq<Tick>, index: nat)
    requires ticks != [] && OfiSliding.Timely(cfg.Width(), ticks)
    ensures var f := NaiveFrame(cfg, ticks, index);
            && f.ofi == Ofi.WindowSum(cfg.Width(), ticks, Signed)
            && f.totalVolume == Ofi.WindowSum(cfg.Width(), ticks, BuyVolume) + Ofi.WindowSum(cfg.Width(), ticks, SellVolume)
  {
    OfiSliding.TimelyIsExact(cfg.Width(), ticks);
    OfiSliding.ExactSums(cfg.Width(), ticks, Signed);
    OfiSliding.ExactSums(cfg.Width(), ticks, BuyVolume);
    OfiSliding.ExactSums(cfg.Width(), ticks, SellVolume);
  }

  // ----- Case ids -----

  const PERIOD: nat := 0x1_0000_0000

  /** The first id of an engine: its start time with the low 32 bits cleared. */
  function FirstCaseId(startNanos: nat): nat
    requires startNanos < WORD
  {
    startNanos - startNanos % PERIOD
  }

  /** The first id is the multiple of 2^32 ns at or just before the start, and is the id of frame 0. */
  lemma {:induction false} FirstIdMeaning(cfg: Config, start: nat)
    requires start < WORD && cfg.firstCaseId == FirstCaseId(start)
    ensures CaseId(cfg, 0) == cfg.firstCaseId
    ensures cfg.firstCaseId % 0x1_0000_0000 == 0 && start - 0x1_0000_0000 < cfg.firstCaseId <= start
  {
  }

  /** Within one engine ids repeat only after 2^64 frames. */
  lemma {:induction false} CaseIdsDistinct(cfg: Config, i: nat, j: nat)
    requires i < j < i + WORD
    ensures CaseId(cfg, i) != CaseId(cfg, j)
  {
    if CaseId(cfg, i) == CaseId(cfg, j) {
      CloseAndCongruent(cfg.firstCaseId + j, cfg.firstCaseId + i, WORD);
    }
  }

  /** How far the first id of one engine lies ahead of another's, in periods of 2^32 ns, on the
      circle of 2^64 ids. */
  function Ahead(startA: nat, startB: nat): (d: nat)
    ensures d < WORD
  {
    ((startB / PERIOD - startA / PERIOD) * PERIOD) % WORD
  }

  predicate Started(cfg: Config, start: nat) {
    start < WORD && cfg.firstCaseId == FirstCaseId(start)
  }

  /** When the i-th id of one engine is the j-th id of another, for all i and j. */
  lemma {:induction false} EnginesCollide(a: Config, b: Config, startA: nat, startB: nat, i: nat, j: nat)
    requires Started(a, startA) && Started(b, startB)
    ensures CaseId(a, i) == CaseId(b, j) <==> (Ahead(startA, startB) + j - i) % WORD == 0
  {
    var p, q := startA / PERIOD, startB / PERIOD;
    assert a.firstCaseId == p * PERIOD && b.firstCaseId == q * PERIOD;
    SameRemainder(b.firstCaseId + j, a.firstCaseId + i);
    ShiftedRemainder((q - p) * PERIOD, j - i);
  }

  lemma {:induction false} SameRemainder(x: int, y: int)
    ensures x % WORD == y % WORD <==> (x - y) % WORD == 0
  {
  }

  lemma {:induction false} ShiftedRemainder(x: int, d: int)
    ensures (x % WORD + d) % WORD == (x + d) % WORD
  {
  }

  ghost predicate Disjoint(a: Config, b: Config, m: nat, n: nat) {
    forall i, j :: 0 <= i < m && 0 <= j < n ==> CaseId(a, i) != CaseId(b, j)
  }

  /** When the first m ids of one engine and the first n of another have none in common: exactly
      when neither reaches the other's first id. */
  lemma {:induction false} IdsDisjoint(a: Config, b: Config, startA: nat, startB: nat, m: nat, n: nat)
    requires Started(a, startA) && Started(b, startB) && m > 0 && n > 0
    ensures Disjoint(a, b, m, n) <==> m <= Ahead(startA, startB) && n <= WORD - Ahead(startA, startB)
  {
    var d := Ahead(startA, startB);
    if m <= d && n <= WORD - d {
      forall i, j | 0 <= i < m && 0 <= j < n
        ensures CaseId(a, i) != CaseId(b, j)
      {
        EnginesCollide(a, b, startA, startB, i, j);
      }
    } else if m > d {
      EnginesCollide(a, b, startA, startB, d, 0);
    } else {
      EnginesCollide(a, b, startA, startB, 0, WORD - d);
    }
  }

  lemma {:induction false} AheadByPeriods(startA: nat, startB: nat)
    requires startA < WORD && startB < WORD
    ensures startA / PERIOD == startB / PERIOD ==> Ahead(startA, startB) == 0
    ensures startA / PERIOD != startB / PERIOD ==> PERIOD <= Ahead(startA, startB) <= WORD - PERIOD
  {
    var p, q := startA / PERIOD, startB / PERIOD;
    assert 0 <= p < PERIOD && 0 <= q < PERIOD;
    if q < p {
      ShiftedRemainder((q - p) * PERIOD + WORD, 0 - WORD);
      assert 0 <= (q - p) * PERIOD + WORD < WORD;
    } else {
      assert 0 <= (q - p) * PERIOD < WORD;
    }
  }

  /** Engines started in different periods have their first 2^32 ids to themselves; engines started
      in the same period share every id. */
  lemma {:induction false} PeriodsDecide(a: Config, b: Config, startA: nat, startB: nat)
    requires Started(a, startA) && Started(b, startB)
    ensures startA / PERIOD != startB / PERIOD ==> Disjoint(a, b, PERIOD, PERIOD)
    ensures startA / PERIOD == startB / PERIOD ==> forall i: nat :: CaseId(a, i) == CaseId(b, i)
  {
    hide FirstCaseId, CaseId, Ahead;
    AheadByPeriods(startA, startB);
    IdsDisjoint(a, b, startA, startB, PERIOD, PERIOD);
    if startA / PERIOD == startB / PERIOD {
      forall i: nat
        ensures CaseId(a, i) == CaseId(b, i)
      {
        EnginesCollide(a, b, startA, startB, i, i);
      }
    }
  }
}
