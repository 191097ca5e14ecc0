/** When the recycled buckets are the sliding window the engine documents. */
module OfiSliding {

  import opened Bits
  import opened Division
  import opened Ticks
  import opened Sums
  import opened Ofi

  /** No tick of the final window has been displaced. */
  ghost predicate Exact(w: int64, h: seq<Tick>)
    requires w > 0
  {
    forall i :: InWindow(w, h, i) ==> Resident(w, h, i)
  }

  /** Every counted tick arrived less than sixteen epochs behind the newest before it. */
  ghost predicate Timely(w: int64, h: seq<Tick>)
    requires w > 0
  {
    forall j :: 0 <= j < |h| && Counted(h[j]) ==> Epoch(w, h[j]) > Newest(w, h[..j]) - 16
  }

  /** What a caller can check before `Update`: the tick is a full window behind, and the bucket
      it would take is active and holds volume. */
  predicate Evicts(w: int64, tab: Table, t: Tick)
    requires w > 0 && |tab.buckets| == BUCKET_COUNT
  {
    && Counted(t) && Epoch(w, t) <= tab.newest - 16
    && var b := tab.buckets[SlotOf(Epoch(w, t))];
       Active(tab, b.epoch) && b.buys + b.sells > 0
  }

  lemma {:induction false} NewestAppend(w: int64, h: seq<Tick>, t: Tick)
    requires w > 0
    ensures Newest(w, h + [t]) == if Counted(t) && Epoch(w, t) > Newest(w, h) then Epoch(w, t) else Newest(w, h)
  {
    assert (h + [t])[..|h|] == h;
  }

  lemma {:induction false} WindowAppend(w: int64, h: seq<Tick>, t: Tick, i: int)
    requires w > 0 && 0 <= i < |h| && InWindow(w, h + [t], i)
    ensures InWindow(w, h, i)
  {
    NewestAppend(w, h, t);
    assert (h + [t])[i] == h[i];
  }

  /** Two epochs of one window that share a slot are equal. */
  lemma {:induction false} WindowSlots(a: int, b: int, newest: int)
    requires newest - 15 <= a <= newest && newest - 15 <= b <= newest
    requires SlotOf(a) == SlotOf(b)
    ensures a == b
  {
    CloseAndCongruent(a, b, 16);
  }

  lemma {:induction false} InTimeKeepsExact(w: int64, h: seq<Tick>, t: Tick)
    requires w > 0 && Exact(w, h)
    requires Counted(t) ==> Epoch(w, t) > Newest(w, h) - 16
    ensures Exact(w, h + [t])
  {
    var h' := h + [t];
    NewestAppend(w, h, t);
    forall i | InWindow(w, h', i)
      ensures Resident(w, h', i)
    {
      ResidentAppend(w, h, t, i);
      if i < |h| {
        WindowAppend(w, h, t, i);
        if Counted(t) && SlotOf(Epoch(w, t)) == SlotOf(Epoch(w, h[i])) {
          assert h'[i] == h[i];
          WindowSlots(Epoch(w, t), Epoch(w, h[i]), Newest(w, h'));
        }
      }
    }
  }

  /** The bucket of a live slot holds a resident of the window. */
  lemma {:induction false} LiveBucket(w: int64, h: seq<Tick>, s: nat) returns (i: nat)
    requires w > 0 && s < BUCKET_COUNT
    requires var tab := After(w, h); Active(tab, tab.buckets[s].epoch) && tab.buckets[s].buys + tab.buckets[s].sells > 0
    ensures InWindow(w, h, i) && Resident(w, h, i) && SlotOf(Epoch(w, h[i])) == s
  {
    TableMeaning(w, h);
    var k := i => Resident(w, h, i) && SlotOf(Epoch(w, h[i])) == s;
    if SumOver(h, BuyVolume, k, |h|) > 0 {
      i := PositiveSum(h, BuyVolume, k, |h|);
    } else {
      i := PositiveSum(h, SellVolume, k, |h|);
    }
  }

  /** A resident of the window makes the bucket of its slot live. */
  lemma {:induction false} ResidentIsLive(w: int64, h: seq<Tick>, i: int)
    requires w > 0
    ensures InWindow(w, h, i) && Resident(w, h, i) ==>
              var tab, s := After(w, h), SlotOf(Epoch(w, h[i]));
              Active(tab, tab.buckets[s].epoch) && tab.buckets[s].buys + tab.buckets[s].sells > 0
  {
    hide TruncDiv;
    if InWindow(w, h, i) && Resident(w, h, i) {
      TableMeaning(w, h);
      var s := SlotOf(Epoch(w, h[i]));
      var k := j => Resident(w, h, j) && SlotOf(Epoch(w, h[j])) == s;
      assert SlotMeans(w, h, s, After(w, h).buckets[s]);
      SumMonotone(h, BuyVolume, k, k, |h|);
      SumMonotone(h, SellVolume, k, k, |h|);
      SumAtLeast(h, BuyVolume, k, |h|, i);
      SumAtLeast(h, SellVolume, k, |h|, i);
    }
  }

  /** One update keeps the table exact if and only if it is not such an eviction. */
  lemma {:induction false} ExactStep(w: int64, h: seq<Tick>, t: Tick)
    requires w > 0 && Exact(w, h)
    ensures Exact(w, h + [t]) <==> !Evicts(w, After(w, h), t)
  {
    var h', tab, s := h + [t], After(w, h), SlotOf(Epoch(w, t));
    TableMeaning(w, h);
    if !Counted(t) || Epoch(w, t) > Newest(w, h) - 16 {
      InTimeKeepsExact(w, h, t);
    } else {
      NewestAppend(w, h, t);
      if Evicts(w, tab, t) {
        var i := LiveBucket(w, h, s);
        ResidentAppend(w, h, t, i);
        assert h'[i] == h[i] && InWindow(w, h', i) && !Resident(w, h', i);
      } else {
        forall i | InWindow(w, h', i)
          ensures Resident(w, h', i)
        {
          assert i < |h| by {
            assert h'[|h|] == t;
          }
          WindowAppend(w, h, t, i);
          ResidentIsLive(w, h, i);
          ResidentAppend(w, h, t, i);
        }
      }
    }
  }

  lemma {:induction false} TimelyIsExact(w: int64, h: seq<Tick>)
    requires w > 0 && Timely(w, h)
    ensures Exact(w, h)
  {
    if h != [] {
      var p, t := h[..|h| - 1], h[|h| - 1];
      assert p + [t] == h;
      forall j | 0 <= j < |p| && Counted(p[j])
        ensures Epoch(w, p[j]) > Newest(w, p[..j]) - 16
      {
        assert p[j] == h[j] && p[..j] == h[..j];
      }
      TimelyIsExact(w, p);
      InTimeKeepsExact(w, p, t);
    }
  }

  lemma {:induction false} ExactSums(w: int64, h: seq<Tick>, f: Tick -> int)
    requires w > 0 && Exact(w, h)
    ensures SurvivingSum(w, h, f) == WindowSum(w, h, f)
  {
    SumSame(h, h, f, i => Resident(w, h, i) && InWindow(w, h, i), i => InWindow(w, h, i), |h|);
  }

  /** The sliding-window theorem: under bounded lateness, with any reordering inside the
      window, the sixteen buckets read as the naive sums over the whole history. */
  lemma {:induction false} SlidingWindow(w: int64, h: seq<Tick>)
    requires w > 0 && Timely(w, h)
    ensures WindowBuys(After(w, h), 16) - WindowSells(After(w, h), 16) == WindowSum(w, h, Signed)
    ensures WindowBuys(After(w, h), 16) + WindowSells(After(w, h), 16) == WindowSum(w, h, BuyVolume) + WindowSum(w, h, SellVolume)
  {
    ReadingsAreSurvivors(w, h);
    TimelyIsExact(w, h);
    ExactSums(w, h, Signed);
    ExactSums(w, h, BuyVolume);
    ExactSums(w, h, SellVolume);
  }

  /** Without it the documented window is not what is computed: a tick exactly sixteen widths
      late wipes out a purchase one instant old. */
  lemma {:induction false} LateTickWipesWindow()
    ensures var h := [Tick([], 16, 0, 1.0, 5, Buy), Tick([], 0, 0, 1.0, 3, Buy)];
            WindowSum(1, h, Signed) == 5 && WindowBuys(After(1, h), 16) - WindowSells(After(1, h), 16) == 0
  {
    var a, b := Tick([], 16, 0, 1.0, 5, Buy), Tick([], 0, 0, 1.0, 3, Buy);
    var h := [a, b];
    assert h[..1] == [a] && h[..1][..0] == [];
    TruncDivMeaning(16, 1);
    TruncDivMeaning(0, 1);
    assert Newest(1, []) == 0 && Newest(1, [a]) == 16 && Newest(1, h) == 16;
    assert InWindow(1, h, 0) && !InWindow(1, h, 1);
    var k := i => InWindow(1, h, i);
    assert SumOver(h, Signed, k, 0) == 0;
    assert SumOver(h, Signed, k, 1) == 5;
    ReadingsAreSurvivors(1, h);
    assert SlotOf(16) == 0 == SlotOf(0);
    assert Recycled(1, h, 0) by {
      assert Counted(h[1]);
    }
    SumNone(h, Signed, i => Resident(1, h, i) && InWindow(1, h, i), 2);
  }

  /** The window in nanoseconds, for non-negative timestamps: it contains every counted tick at
      most fifteen widths older than the latest counted tick, and none sixteen or more older. */
  lemma {:induction false} WindowInTime(w: int64, h: seq<Tick>, i: nat, latest: nat)
    requires w > 0 && i < |h| && latest < |h| && Counted(h[i]) && Counted(h[latest])
    requires forall j :: 0 <= j < |h| && Counted(h[j]) ==> 0 <= h[j].ts <= h[latest].ts
    ensures h[i].ts >= h[latest].ts - 15 * w ==> InWindow(w, h, i)
    ensures h[i].ts <= h[latest].ts - 16 * w ==> !InWindow(w, h, i)
  {
    var m := h[latest].ts;
    forall j | 0 <= j < |h| && Counted(h[j])
      ensures Epoch(w, h[j]) <= m / w
    {
      TruncDivMeaning(h[j].ts, w);
      DivMonotone(h[j].ts, m, w);
    }
    TruncDivMeaning(m, w);
    TruncDivMeaning(h[i].ts, w);
    assert Newest(w, h) == m / w by {
      assert Epoch(w, h[latest]) == m / w;
      DivMonotone(0, m, w);
    }
    if h[i].ts >= m - 15 * w {
      DivShift(m, -15, w);
      DivMonotone(m - 15 * w, h[i].ts, w);
    }
    if h[i].ts <= m - 16 * w {
      DivShift(m, -16, w);
      DivMonotone(h[i].ts, m - 16 * w, w);
    }
  }
}
