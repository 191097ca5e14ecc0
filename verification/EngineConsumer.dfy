/** The feature loop as it runs: the two kernels, the pacing counter and the frames built. */
module EngineConsumer {

  import opened Ticks
  import opened Engine
  import OW = OfiWindow
  import VW = VolWindow

  /** The loop body seen from the naive side: the pacing counter wraps at the interval, and the
      frame then built is the naive one. */
  lemma {:induction false} NextTick(cfg: Config, h: seq<Tick>, t: Tick)
    ensures var c, c' := ConsumerAfter(cfg, h), ConsumerAfter(cfg, h + [t]);
            if c.sinceFrame + 1 >= cfg.frameInterval then
              && c'.sinceFrame == 0 && (|h| + 1) % cfg.Interval() == 0
              && c'.frames == c.frames + [NaiveFrame(cfg, h + [t], |c.frames|)]
            else
              && c'.sinceFrame == c.sinceFrame + 1 && (|h| + 1) % cfg.Interval() != 0
              && c'.frames == c.frames
  {
    assert (h + [t])[..|h|] == h;
    FrameCount(cfg, h + [t]);
    FrameIsNaive(cfg, h + [t], |ConsumerAfter(cfg, h).frames|);
  }

  class FeatureConsumer {
    const cfg: Config
    const ofi: OW.Window
    const rv: VW.Window
    var sinceFrame: nat
    var frames: seq<Frame>
    ghost var history: seq<Tick>

    ghost predicate Kernels()
      reads this`history, ofi, ofi.buckets, rv, rv.samples
    {
      && ofi.Valid() && rv.Valid()
      && ofi.width == cfg.Width() && rv.capacity == cfg.Capacity() && rv.math == cfg.math
      && ofi.history == history && rv.history == Prices(history)
    }

    ghost predicate Valid()
      reads this, ofi, ofi.buckets, rv, rv.samples
    {
      && Kernels()
      && sinceFrame == ConsumerAfter(cfg, history).sinceFrame
      && frames == ConsumerAfter(cfg, history).frames
    }

    constructor (cfg: Config)
      ensures Valid() && fresh(ofi) && fresh(ofi.buckets) && fresh(rv) && fresh(rv.samples)
      ensures this.cfg == cfg && history == [] && frames == []
    {
      this.cfg := cfg;
      ofi := new OW.Window(cfg.bucketWidth);
      rv := new VW.Window(cfg.math, cfg.samples);
      sinceFrame, frames, history := 0, [], [];
      new;
      assert Prices([]) == [];
    }

    /** The frame on everything consumed so far, read off the two kernels. */
    method Build(latest: Tick) returns (f: Frame)
      requires Kernels() && history != [] && latest == history[|history| - 1]
      ensures f == NaiveFrame(cfg, history, |frames|)
    {
      var imbalance := ofi.Value();
      var volume := ofi.TotalVolume();
      var volatility := rv.Value();
      var count := rv.Count();
      OW.VolumeSplits(cfg.Width(), history);
      f := Frame(FRAME_VERSION, count, latest.ts, latest.symbol, imbalance, volatility, latest.price, volume,
                 CaseId(cfg, |frames|), latest.wireTs, cfg.clock(|frames|));
    }

    method UpdateKernels(t: Tick)
      requires Kernels()
      modifies this`history, ofi`newest, ofi`history, ofi.buckets, rv`head, rv`count, rv`last, rv`history, rv.samples
      ensures Kernels() && history == old(history) + [t]
    {
      history := history + [t];
      assert Prices(history) == Prices(old(history)) + [t.price];
      ofi.Update(t);
      rv.Update(t.price);
    }

    /** One popped tick: both kernels are updated, and a frame is built exactly when the interval
        is complete; it carries the naive features of everything popped so far. */
    method OnTick(t: Tick) returns (built: bool)
      requires Valid()
      modifies this`sinceFrame, this`frames, this`history, ofi`newest, ofi`history, ofi.buckets,
               rv`head, rv`count, rv`last, rv`history, rv.samples
      ensures Valid() && history == old(history) + [t]
      ensures built <==> |history| % cfg.Interval() == 0
      ensures frames == if built then old(frames) + [NaiveFrame(cfg, history, |old(frames)|)] else old(frames)
    {
      NextTick(cfg, history, t);
      UpdateKernels(t);
      sinceFrame := sinceFrame + 1;
      built := sinceFrame >= cfg.frameInterval;
      if built {
        sinceFrame := 0;
        var f := Build(t);
        frames := frames + [f];
      }
    }
  }
}
