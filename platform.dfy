/**
 * What the benchmarking core calls but cannot see: the clock, the
 * function under benchmark, and the operating system that is asked to spawn
 * child processes. Each is a class whose contract states only what callers may rely
 * on; the bodies are the simplest behaviour satisfying that contract.
 */
module Platform {

  /**
   * std::chrono::high_resolution_clock, read in nanoseconds. The C++ standard
   * does not make that clock steady; this stand-in assumes readings never go
   * back, which is what the non-negative timings below rest on.
   */
  class Clock {
    var reading: int

    constructor ()
      ensures reading == 0
    {
      reading := 0;
    }

    /** Clock::now(): never earlier than any previous reading. */
    method Now() returns (t: int)
      modifies this
      ensures old(reading) <= t && reading == t
    {
      reading := reading + 1;
      t := reading;
    }
  }

  /** The callable handed to Benchmark::run; only the number of calls is observable. */
  class Workload {
    var calls: nat

    constructor ()
      ensures calls == 0
    {
      calls := 0;
    }

    method Invoke()
      modifies this
      ensures calls == old(calls) + 1
    {
      calls := calls + 1;
    }
  }

  /**
   * How a child process ended, as waitpid reports it to executeCommand
   * (src/main.cpp): fork failed, the child exited with a code (exec failure is
   * the child's _exit(127)), or a signal killed it.
   */
  datatype ChildOutcome = ForkFailed | Exited(code: int) | Signalled(signal: int)

  /** executeCommand's result: -1 for fork failure or abnormal end, else the 8-bit exit status. */
  function ExitStatus(o: ChildOutcome): (r: int)
    ensures r == -1 <==> !o.Exited?
    ensures o.Exited? ==> 0 <= r < 256 && (r - o.code) % 256 == 0
  {
    match o
    case ForkFailed => -1
    case Exited(code) => code % 256
    case Signalled(_) => -1
  }

  /** The spawn requested for one run of the benchmarked command. */
  datatype Invocation = Direct(args: seq<string>) | ViaShell(command: string)

  /**
   * The operating system as the run driver sees it: every spawn attempt (one
   * per call, whether or not a child results) is appended to log, in order.
   * How each attempt ends, a failed fork included, is fixed by outcome.
   */
  class ProcessHost {
    var log: seq<Invocation>
    var outcome: ChildOutcome

    constructor (outcome: ChildOutcome)
      ensures log == [] && this.outcome == outcome
    {
      log := [];
      this.outcome := outcome;
    }

    /** executeCommand: fork, execvp(args[0], args), wait; exactly one spawn attempt per call. */
    method Execute(args: seq<string>) returns (status: int)
      modifies this
      ensures log == old(log) + [Direct(args)] && outcome == old(outcome)
      ensures status == ExitStatus(outcome)
    {
      log := log + [Direct(args)];
      status := ExitStatus(outcome);
    }

    /** std::system: the raw command string handed to the platform shell. */
    method System(command: string) returns (status: int)
      modifies this
      ensures log == old(log) + [ViaShell(command)] && outcome == old(outcome)
    {
      log := log + [ViaShell(command)];
      status := ExitStatus(outcome);
    }
  }
}
