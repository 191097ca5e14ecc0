/** What crosses the broker: the frames the engine builds, as bytes, and as the reader sees them. */
module Messages {

  import opened Bytes
  import opened FrameCodec
  import opened FrameLayout
  import opened Wrappers
  import E = Engine
  import EP = EngineProtocol
  import Ofi
  import OfiWindow
  import RealizedVol
  import T = Ticks

  /** A binary64 value is known by its 64-bit pattern only. */
  type bits64 = x: int | 0 <= x < 0x1_0000_0000_0000_0000

  /** The engine's packed record of a frame; `pattern` is the binary64 encoding. */
  function RecordOf(pattern: real -> bits64, f: E.Frame): Record {
    Record(0, f.symbol, Numbers(pattern, f, ""))
  }

  function Numbers(pattern: real -> bits64, f: E.Frame, symbol: string): FrameCodec.Frame {
    FrameCodec.Frame(f.version, f.windowCount, f.ts, symbol, pattern(f.ofi as real), pattern(f.realizedVol),
                     pattern(f.midPrice), pattern(f.totalVolume as real), f.caseId, f.wireTs, f.computeTs)
  }

  /** Every frame the engine builds fits the record. */
  lemma {:induction false} FrameFits(pattern: real -> bits64, cfg: E.Config, ticks: seq<T.Tick>, k: nat)
    requires ticks != [] && |ticks[|ticks| - 1].symbol| == SYMBOL_MAX
    ensures ValidRecord(RecordOf(pattern, E.NaiveFrame(cfg, ticks, k)))
  {
    Widths();
    RealizedVol.ArrayVolatility(cfg.Ret(), cfg.math.sqrt, cfg.Capacity(), E.Prices(ticks));
  }

  lemma {:induction false} RecordRead(pattern: real -> bits64, f: E.Frame)
    requires ValidRecord(RecordOf(pattern, f))
    ensures FromBytes(RecordBytes(RecordOf(pattern, f))) == Ok(Numbers(pattern, f, DecodeAscii(StripNul(f.symbol))))
  {
    ReadsEngineRecord(RecordOf(pattern, f), f.symbol);
    assert Padded(f.symbol) == f.symbol;
  }

  /** The message carrying `f` is read as the naive frame of the first (k + 1) intervals of ticks,
      each feature as its bit pattern and the symbol without its padding. */
  ghost predicate ReadAsNaive(pattern: real -> bits64, cfg: E.Config, ticks: seq<T.Tick>, k: nat, f: E.Frame) {
    var m := (k + 1) * cfg.Interval();
    && 0 < m <= |ticks| && ValidRecord(RecordOf(pattern, f))
    && FromBytes(RecordBytes(RecordOf(pattern, f)))
         == Ok(Numbers(pattern, E.NaiveFrame(cfg, ticks[..m], k), DecodeAscii(StripNul(ticks[m - 1].symbol))))
  }

  lemma {:induction false} FrameOnWire(pattern: real -> bits64, cfg: E.Config, ticks: seq<T.Tick>, k: nat, f: E.Frame)
    requires E.IsFrame(cfg, ticks, k, f) && forall t :: t in ticks ==> |t.symbol| == SYMBOL_MAX
    ensures ReadAsNaive(pattern, cfg, ticks, k, f)
  {
    var first := ticks[..(k + 1) * cfg.Interval()];
    assert first[|first| - 1] in ticks;
    FrameFits(pattern, cfg, first, k);
    RecordRead(pattern, f);
  }

  /** End to end, in every reachable state of every run: what the reader decodes from the k-th
      message is the naive frame of the first (k + 1) intervals of accepted ticks. */
  lemma {:induction false} MessageIsNaive(pattern: real -> bits64, cfg: E.Config, s: EP.State, steps: seq<EP.Step>, k: nat)
    requires EP.Initial(cfg, s) && EP.Runnable(cfg, s, steps)
    requires forall t :: t in EP.Run(cfg, s, steps).accepted ==> |t.symbol| == SYMBOL_MAX
    requires k < |EP.Run(cfg, s, steps).consumer.frames|
    ensures var r := EP.Run(cfg, s, steps); ReadAsNaive(pattern, cfg, r.accepted, k, r.consumer.frames[k])
  {
    hide ReadAsNaive, E.IsFrame, EP.Initial, EP.Runnable, EP.Run;
    EP.FramesAreDeterministic(cfg, s, steps);
    var r := EP.Run(cfg, s, steps);
    assert E.IsFrame(cfg, r.accepted, k, r.consumer.frames[k]);
    FrameOnWire(pattern, cfg, r.accepted, k, r.consumer.frames[k]);
  }

  // ----- The message by offset -----

  /** The 80 bytes of the k-th message against the ticks themselves: what stands at each documented
      offset, with the configuration's defaults written out. */
  ghost predicate MessageAt(pattern: real -> bits64, cfg: E.Config, ticks: seq<T.Tick>, k: nat, msg: seq<byte>) {
    var m := (k + 1) * (if cfg.frameInterval == 0 then 1 else cfg.frameInterval);
    0 < m <= |ticks| && PrefixAt(pattern, cfg, ticks[..m], k, msg)
  }

  ghost predicate PrefixAt(pattern: real -> bits64, cfg: E.Config, ticks: seq<T.Tick>, k: nat, msg: seq<byte>)
    requires ticks != []
  {
    var width: T.int64 := if cfg.bucketWidth > 0 then cfg.bucketWidth else 1;
    var capacity := if cfg.samples == 0 || cfg.samples > 128 then 128 else cfg.samples;
    var w := RealizedVol.Window(RealizedVol.LogReturn(cfg.math.log), capacity, E.Prices(ticks));
    var last := ticks[|ticks| - 1];
    && |msg| == 80
    && FromLE(msg[0..2]) == 2
    && FromLE(msg[2..4]) == 0
    && FromLE(msg[4..8]) == |w|
    && Int64At(msg[8..16], last.ts)
    && msg[16..24] == last.symbol
    && FromLE(msg[24..32]) == pattern(Ofi.SurvivingSum(width, ticks, T.Signed) as real)
    && FromLE(msg[32..40]) == pattern(RealizedVol.Volatility(cfg.math.sqrt, w))
    && FromLE(msg[40..48]) == pattern(last.price)
    && FromLE(msg[48..56]) == pattern(Ofi.SurvivingSum(width, ticks, T.Volume) as real)
    && FromLE(msg[56..64]) == (cfg.firstCaseId + k) % 0x1_0000_0000_0000_0000
    && Int64At(msg[64..72], last.wireTs)
    && Int64At(msg[72..80], cfg.clock(k))
  }

  lemma {:induction false} NaiveBytes(pattern: real -> bits64, cfg: E.Config, ticks: seq<T.Tick>, k: nat)
    requires ticks != [] && ValidRecord(RecordOf(pattern, E.NaiveFrame(cfg, ticks, k)))
    ensures PrefixAt(pattern, cfg, ticks, k, RecordBytes(RecordOf(pattern, E.NaiveFrame(cfg, ticks, k))))
  {
    hide FromLE, Ofi.SurvivingSum, RealizedVol.Window, RealizedVol.Volatility, Int64At, RecordBytes;
    RecordFields(RecordOf(pattern, E.NaiveFrame(cfg, ticks, k)));
    OfiWindow.VolumeSplits(cfg.Width(), ticks);
  }

  lemma {:induction false} FrameByOffset(pattern: real -> bits64, cfg: E.Config, ticks: seq<T.Tick>, k: nat, f: E.Frame)
    requires E.IsFrame(cfg, ticks, k, f) && ValidRecord(RecordOf(pattern, f))
    ensures MessageAt(pattern, cfg, ticks, k, RecordBytes(RecordOf(pattern, f)))
  {
    hide PrefixAt, RecordBytes, E.NaiveFrame;
    NaiveBytes(pattern, cfg, ticks[..(k + 1) * cfg.Interval()], k);
  }

  /** End to end, byte by byte, in every reachable state of every run: which feature of which
      accepted ticks stands at which offset of the k-th message. */
  lemma {:induction false} MessageBytes(pattern: real -> bits64, cfg: E.Config, s: EP.State, steps: seq<EP.Step>, k: nat)
    requires EP.Initial(cfg, s) && EP.Runnable(cfg, s, steps)
    requires forall t :: t in EP.Run(cfg, s, steps).accepted ==> |t.symbol| == SYMBOL_MAX
    requires k < |EP.Run(cfg, s, steps).consumer.frames|
    ensures var r := EP.Run(cfg, s, steps);
            var record := RecordOf(pattern, r.consumer.frames[k]);
            ValidRecord(record) && MessageAt(pattern, cfg, r.accepted, k, RecordBytes(record))
  {
    hide MessageAt, E.IsFrame, EP.Initial, EP.Runnable, EP.Run;
    MessageIsNaive(pattern, cfg, s, steps, k);
    EP.FramesAreDeterministic(cfg, s, steps);
    var r := EP.Run(cfg, s, steps);
    assert E.IsFrame(cfg, r.accepted, k, r.consumer.frames[k]);
    FrameByOffset(pattern, cfg, r.accepted, k, r.consumer.frames[k]);
  }
}
