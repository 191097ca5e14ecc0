/** The volatility kernel as it runs: a fixed array of returns updated in place. */
module VolWindow {

  import opened RealizedVol

  class Window {
    const math: Math
    const capacity: nat
    const samples: array<real>
    var head: nat
    var count: nat
    var last: real
    ghost var history: seq<real>

    ghost predicate Valid()
      reads this, samples
    {
      && 0 < capacity <= MAX_SAMPLES == samples.Length
      && Vol(samples[..], head, count, last) == After(LogReturn(math.log), capacity, history)
    }

    constructor (math: Math, wanted: nat)
      ensures Valid() && fresh(samples) && history == [] && this.math == math
      ensures capacity == if wanted == 0 || wanted > 128 then 128 else wanted
    {
      this.math := math;
      var n := if wanted == 0 then MAX_SAMPLES else wanted;
      capacity := if n < MAX_SAMPLES then n else MAX_SAMPLES;
      samples := new real[MAX_SAMPLES](_ => 0.0);
      head, count, last := 0, 0, 0.0;
      history := [];
    }

    method Update(price: real)
      requires Valid()
      modifies this`head, this`count, this`last, this`history, samples
      ensures Valid() && history == old(history) + [price]
    {
      ghost var v := After(LogReturn(math.log), capacity, history);
      history := history + [price];
      assert history[..|history| - 1] == old(history);
      if price <= 0.0 {
        return;
      }
      if last <= 0.0 {
        last := price;
        return;
      }
      var r := math.log(price / last);
      assert r == LogReturn(math.log)(price, last);
      last := price;
      samples[head] := r;
      assert samples[..] == v.ring[head := r];
      head := (head + 1) % capacity;
      if count < capacity {
        count := count + 1;
      }
    }

    method SumPass(n: nat) returns (sum: real)
      requires n <= samples.Length
      ensures sum == Sum(samples[..n])
    {
      sum := 0.0;
      for i := 0 to n
        invariant sum == Sum(samples[..i])
      {
        TotalAppend(samples[..i], samples[i], x => x);
        assert samples[..i] + [samples[i]] == samples[..i + 1];
        sum := sum + samples[i];
      }
    }

    method DeviationPass(n: nat, mean: real) returns (sq: real)
      requires n <= samples.Length
      ensures sq == Deviation(samples[..n], mean)
    {
      sq := 0.0;
      for i := 0 to n
        invariant sq == Deviation(samples[..i], mean)
      {
        TotalAppend(samples[..i], samples[i], SquaredFrom(mean));
        assert samples[..i] + [samples[i]] == samples[..i + 1];
        var d := samples[i] - mean;
        sq := sq + d * d;
      }
    }

    /** The sample deviation of the last `capacity` returns of the stream. */
    method Value() returns (v: real)
      requires Valid()
      ensures v == Volatility(math.sqrt, RealizedVol.Window(LogReturn(math.log), capacity, history))
      ensures IsSampleDeviation(math.sqrt, RealizedVol.Window(LogReturn(math.log), capacity, history), v)
    {
      hide IsSampleDeviation;
      VolatilityOfSums(math.sqrt, RealizedVol.Window(LogReturn(math.log), capacity, history));
      ArrayVolatility(LogReturn(math.log), math.sqrt, capacity, history);
      if count < 2 {
        return 0.0;
      }
      var sum := SumPass(count);
      var mean := sum / count as real;
      var sq := DeviationPass(count, mean);
      v := math.sqrt(sq / (count - 1) as real);
    }

    method Count() returns (n: nat)
      requires Valid()
      ensures n == |RealizedVol.Window(LogReturn(math.log), capacity, history)|
    {
      ArrayVolatility(LogReturn(math.log), math.sqrt, capacity, history);
      n := count;
    }
  }
}
