/** The Benchmark class of vajra.hpp: warm up, then time each measured call. */
module Benchmarking {
  import opened Platform
  import opened Timing

  class Benchmark {
    const name: string
    const iterations: nat
    const warmupIterations: nat

    constructor (benchName: string, numIterations: nat, warmup: nat)
      ensures name == benchName && iterations == numIterations && warmupIterations == warmup
    {
      name := benchName;
      iterations := numIterations;
      warmupIterations := warmup;
    }

    /**
     * run(func): func is called warmupIterations + iterations times and
     * exactly one non-negative duration in seconds is returned per measured call.
     */
    method Run(func: Workload, clock: Clock) returns (times: seq<real>)
      modifies func, clock
      ensures func.calls == old(func.calls) + warmupIterations + iterations
      ensures |times| == iterations
      ensures forall i :: 0 <= i < |times| ==> times[i] >= 0.0
    {
      for i := 0 to warmupIterations
        invariant func.calls == old(func.calls) + i
      {
        func.Invoke();
      }
      times := [];
      for i := 0 to iterations
        invariant func.calls == old(func.calls) + warmupIterations + i
        invariant |times| == i
        invariant forall k :: 0 <= k < |times| ==> times[k] >= 0.0
      {
        var timer := new Timer("Timer");
        var t0 := clock.Now();
        timer.Start(t0);
        func.Invoke();
        var t1 := clock.Now();
        timer.Stop(t1);
        times := times + [timer.ElapsedSeconds(t1)];
      }
    }
  }
}
