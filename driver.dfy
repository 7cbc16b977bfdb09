/**
 * main of main.cpp: resolve the configuration from the command line, run
 * the command warmup + iterations times, time each measured run, and summarise.
 */
module Driver {
  import opened Wrappers
  import opened Arguments
  import opened Command
  import Statistics
  import opened Platform
  import opened Timing
  import opened Progress

  const DefaultWarmup := 5
  const DefaultIterations := 100
  const BarWidth := 50

  /** What main settles on before attempting any spawn. */
  datatype Config = Config(warmup: int, iterations: int, outputFormat: string, useShell: bool,
                           command: string, cmdArgs: seq<string>)

  /** main either shows help (exit 0), stops on a configuration error (exit 1), or runs. */
  datatype Resolution = Help | ConfigError | Ready(config: Config)

  /** BenchmarkResults as main fills it. */
  datatype BenchmarkResults = BenchmarkResults(command: string, mean: real, stdDev: real,
                                               min: real, max: real, iterations: int)

  /** Reference reading of main's decisions up to the first spawn attempt. */
  function Resolve(argv: seq<string>): Resolution
    requires |argv| >= 1
  {
    var p := FromArgv(argv);
    if Has(p, "help") || |argv| == 1 then Help
    else if !Validate(p) then ConfigError
    else
      var (warmupOk, warmup) := GetIntSafe(p, "warmup", 0, DefaultWarmup);
      var (iterationsOk, iterations) := GetIntSafe(p, "iterations", 0, DefaultIterations);
      if !warmupOk || !iterationsOk then ConfigError
      else
        var command := JoinWords(p.positionalArgs);
        var useShell := Has(p, "shell");
        var cmdArgs := if useShell then [] else Tokenize(command);
        if !useShell && cmdArgs == [] then ConfigError
        else Ready(Config(warmup, iterations, Get(p, "output", "text"), useShell, command, cmdArgs))
  }

  /** The spawn attempted for each run under a configuration. */
  function InvocationOf(c: Config): Invocation
  {
    if c.useShell then ViaShell(c.command) else Direct(c.cmdArgs)
  }

  function Repeat(x: Invocation, n: nat): seq<Invocation>
  {
    seq(n, _ => x)
  }

  /** The results main reports for the collected timings. */
  function Summarize(command: string, timings: seq<real>, iterations: int, sqrt: real -> real): (r: BenchmarkResults)
    ensures timings != [] && (forall i :: 0 <= i < |timings| ==> timings[i] >= 0.0) ==>
            0.0 <= r.min <= r.mean <= r.max
    ensures Statistics.IsSquareRoot(sqrt) ==> r.stdDev >= 0.0
  {
    BenchmarkResults(command, Statistics.Mean(timings), Statistics.StdDev(timings, sqrt),
                     Statistics.Min(timings), Statistics.Max(timings), iterations)
  }

  /**
   * A resolved configuration is one main can run: at least one measured
   * iteration, no negative warmup, a known output format, and in direct mode
   * a non-empty argument vector; absent options take their defaults.
   */
  lemma ReadyIsRunnable(argv: seq<string>)
    requires |argv| >= 1 && Resolve(argv).Ready?
    ensures var c := Resolve(argv).config; var p := FromArgv(argv);
      && c.warmup >= 0 && c.iterations >= 1
      && c.outputFormat in {"json", "text"}
      && p.positionalArgs != [] && c.command == JoinWords(p.positionalArgs)
      && (c.useShell <==> Has(p, "shell"))
      && (!c.useShell ==> c.cmdArgs != [] && c.cmdArgs == Tokenize(c.command))
      && (!Has(p, "warmup") ==> c.warmup == DefaultWarmup)
      && (!Has(p, "iterations") ==> c.iterations == DefaultIterations)
  {
  }

  /** "--help" anywhere after the program name shows help, whatever else is given. */
  lemma HelpWins(argv: seq<string>, i: nat)
    requires 1 <= i < |argv| && argv[i] == "--help"
    ensures Resolve(argv) == Help
  {
    HasFromArgv(argv, "help");
    assert argv[i] == "--" + "help";
  }

  /** A command of spaces alone passes validate but tokenizes to nothing and is refused in direct mode. */
  lemma BlankCommandRefused()
    ensures Validate(FromArgv(["vajra", " "]))
    ensures Resolve(["vajra", " "]) == ConfigError
  {
    var argv := ["vajra", " "];
    assert argv[1..] == [" "];
    assert !IsOption(" ");
    ScanWithoutOptions([" "]);
    assert FromArgv(argv).positionalArgs == [" "];
    BlankHasNoTokens(" ");
  }

  /** The parse of `vajra --warmup 0 --iterations 10 true`. */
  lemma ExampleParse()
    ensures FromArgv(["vajra", "--warmup", "0", "--iterations", "10", "true"])
         == ArgParser(map["warmup" := "0", "iterations" := "10"], ["true"], "vajra")
  {
    var args := ["--warmup", "0", "--iterations", "10", "true"];
    assert ["vajra", "--warmup", "0", "--iterations", "10", "true"][1..] == args;
    var tail := args[2..];
    ExampleParseTail(tail);
    assert IsOption(args[0]) && args[0][2..] == "warmup" && TakesAsValue(args[1]);
    ScanStep(args);
    assert map["warmup" := "0"] + map["iterations" := "10"] == map["warmup" := "0", "iterations" := "10"];
  }

  /** The scan of the example's last three arguments. */
  lemma ExampleParseTail(tail: seq<string>)
    requires tail == ["--iterations", "10", "true"]
    ensures Arguments.Scan(tail) == Scanned(map["iterations" := "10"], ["true"])
  {
    assert tail[2..] == ["true"];
    assert "true"[..2][0] == 't';
    ScanWithoutOptions(["true"]);
    var last := Arguments.Scan(["true"]);
    assert IsOption(tail[0]) && tail[0][2..] == "iterations" && TakesAsValue(tail[1]);
    ScanStep(tail);
    assert map["iterations" := "10"] + last.options == map["iterations" := "10"];
    assert [] + last.positionals == ["true"];
  }

  /** The parsed example passes validate and yields warmup 0 and 10 iterations. */
  lemma ExampleCounts(p: ArgParser)
    requires p == ArgParser(map["warmup" := "0", "iterations" := "10"], ["true"], "vajra")
    ensures Validate(p)
    ensures GetIntSafe(p, "warmup", 0, DefaultWarmup) == (true, 0)
    ensures GetIntSafe(p, "iterations", 0, DefaultIterations) == (true, 10)
  {
    var warmup, iterations, output := "warmup", "iterations", "output";
    assert output != warmup by { assert output[0] != warmup[0]; }
    assert output != iterations by { assert |output| != |iterations|; }
    assert !Has(p, output);
    assert FormatInt(0) == "0";
    assert Decimal(10) == "10" by { assert Decimal(1) == "1"; }
    CountOfText(p, warmup, 0, 0, DefaultWarmup);
    CountOfText(p, iterations, 10, 1, DefaultIterations);
  }

  /** A count option holding the decimal text of n reads as n. */
  lemma CountOfText(p: ArgParser, key: string, n: int, least: int, defaultValue: int)
    requires key in p.arguments && p.arguments[key] == FormatInt(n) && n >= least
    ensures CountAtLeast(p, key, least)
    ensures GetIntSafe(p, key, 0, defaultValue) == (true, n)
  {
    ParseFormatted(n);
  }

  /** The example's command line and argument vector. */
  lemma ExampleCommand()
    ensures JoinWords(["true"]) == "true" && Tokenize("true") == ["true"]
  {
    PlainToken("true");
  }

  /** `vajra --warmup 0 --iterations 10 true` resolves to ten direct runs of `true` without warmup. */
  lemma ExampleResolve(argv: seq<string>)
    requires argv == ["vajra", "--warmup", "0", "--iterations", "10", "true"]
    ensures Resolve(argv) == Ready(Config(0, 10, "text", false, "true", ["true"]))
  {
    var p := FromArgv(argv);
    ExampleParse();
    ExampleCounts(p);
    ExampleCommand();
    ExampleAbsentKeys(p);
  }

  lemma ExampleAbsentKeys(p: ArgParser)
    requires p.arguments == map["warmup" := "0", "iterations" := "10"]
    ensures !Has(p, "help") && !Has(p, "shell") && !Has(p, "output")
  {
    assert p.arguments.Keys == {"warmup", "iterations"};
    assert |"help"| == 4 && |"shell"| == 5 && |"output"| == 6 && |"warmup"| == 6 && |"iterations"| == 10;
    assert "output"[0] != "warmup"[0];
  }

  /**
   * End to end: warmup 0, 10 iterations of `true` make exactly ten direct
   * spawn attempts, keep ten samples and report min <= mean <= max, all non-negative.
   */
  lemma ExampleRun(argv: seq<string>, logBefore: seq<Invocation>, logAfter: seq<Invocation>, code: int,
                   timings: seq<real>, results: Option<BenchmarkResults>, sqrt: real -> real)
    requires argv == ["vajra", "--warmup", "0", "--iterations", "10", "true"]
    requires Behaves(Resolve(argv), logBefore, logAfter, code, timings, results, sqrt)
    ensures code == 0 && |timings| == 10 && logAfter == logBefore + Repeat(Direct(["true"]), 10)
    ensures results.Some? && results.value.iterations == 10 && results.value.command == "true"
    ensures 0.0 <= results.value.min <= results.value.mean <= results.value.max
  {
    ExampleResolve(argv);
  }

  lemma RepeatAdd(x: Invocation, a: nat, b: nat)
    ensures Repeat(x, a) + Repeat(x, b) == Repeat(x, a + b)
  {
    assert forall k :: 0 <= k < a + b ==> (Repeat(x, a) + Repeat(x, b))[k] == x;
  }

  /** The configuration steps of main, up to the first spawn attempt. */
  method Configure(argv: seq<string>) returns (r: Resolution)
    requires |argv| >= 1
    ensures r == Resolve(argv)
  {
    var p := ParseArgs(argv);
    assert p == FromArgv(argv);
    if Has(p, "help") || |argv| == 1 {
      return Help;
    }
    if !Validate(p) {
      return ConfigError;
    }
    var (warmupOk, warmup) := GetIntSafe(p, "warmup", 0, DefaultWarmup);
    var (iterationsOk, iterations) := GetIntSafe(p, "iterations", 0, DefaultIterations);
    if !warmupOk || !iterationsOk {
      return ConfigError;
    }
    var outputFormat := Get(p, "output", "text");
    var useShell := Has(p, "shell");
    var command := Join(p.positionalArgs);
    var cmdArgs: seq<string> := [];
    if !useShell {
      cmdArgs := ParseCommand(command);
      if cmdArgs == [] {
        return ConfigError;
      }
    }
    r := Ready(Config(warmup, iterations, outputFormat, useShell, command, cmdArgs));
  }

  /** One run of the command: executeCommand in direct mode, std::system in shell mode. */
  method RunOnce(host: ProcessHost, c: Config)
    modifies host
    ensures host.log == old(host.log) + [InvocationOf(c)]
  {
    if c.useShell {
      var _ := host.System(c.command);
    } else {
      var _ := host.Execute(c.cmdArgs);
    }
  }

  /** The warmup loop: the command runs warmup times and nothing is kept. */
  method Warmup(host: ProcessHost, c: Config)
    requires c.warmup >= 0
    modifies host
    ensures host.log == old(host.log) + Repeat(InvocationOf(c), c.warmup)
  {
    for i := 0 to c.warmup
      invariant host.log == old(host.log) + Repeat(InvocationOf(c), i)
    {
      RunOnce(host, c);
      assert Repeat(InvocationOf(c), i + 1) == Repeat(InvocationOf(c), i) + [InvocationOf(c)];
    }
  }

  /**
   * The measured loop: each run is timed, its duration in milliseconds kept,
   * and in text mode the progress bar advanced and finally finished.
   */
  method Measure(host: ProcessHost, clock: Clock, c: Config) returns (timings: seq<real>)
    requires c.iterations >= 1
    modifies host, clock
    ensures host.log == old(host.log) + Repeat(InvocationOf(c), c.iterations)
    ensures |timings| == c.iterations
    ensures forall k :: 0 <= k < |timings| ==> timings[k] >= 0.0
  {
    var isJsonOutput := c.outputFormat == "json";
    var bar := new ProgressBar(c.iterations, BarWidth);
    timings := [];
    for i := 0 to c.iterations
      invariant host.log == old(host.log) + Repeat(InvocationOf(c), i)
      invariant |timings| == i
      invariant forall k :: 0 <= k < |timings| ==> timings[k] >= 0.0
    {
      var timer := new Timer("Timer");
      var t0 := clock.Now();
      timer.Start(t0);
      RunOnce(host, c);
      assert Repeat(InvocationOf(c), i + 1) == Repeat(InvocationOf(c), i) + [InvocationOf(c)];
      var t1 := clock.Now();
      timer.Stop(t1);
      timings := timings + [timer.ElapsedMilliseconds(t1)];
      if !isJsonOutput {
        var now := clock.Now();
        var _ := bar.Update(i + 1, now);
      }
    }
    if !isJsonOutput {
      var now := clock.Now();
      var _ := bar.Finish(now);
    }
  }

  /**
   * What a run of main leaves behind for a resolution: the exit code, the
   * spawn attempts (logBefore to logAfter), the timings and the results.
   * Help and configuration errors attempt nothing; a ready configuration
   * attempts to spawn the command warmup + iterations times, keeps one non-negative timing per
   * measured run and reports their summary.
   */
  predicate Behaves(resolution: Resolution, logBefore: seq<Invocation>, logAfter: seq<Invocation>,
                    code: int, timings: seq<real>, results: Option<BenchmarkResults>, sqrt: real -> real)
  {
    match resolution
    case Help => code == 0 && logAfter == logBefore && results == None
    case ConfigError => code == 1 && logAfter == logBefore && results == None
    case Ready(c) =>
      && code == 0
      && c.warmup >= 0 && c.iterations >= 1
      && logAfter == logBefore + Repeat(InvocationOf(c), c.warmup + c.iterations)
      && |timings| == c.iterations
      && (forall k :: 0 <= k < |timings| ==> timings[k] >= 0.0)
      && results == Some(Summarize(c.command, timings, c.iterations, sqrt))
  }

  /** What main does once its configuration is settled. */
  method RunResolved(resolution: Resolution, host: ProcessHost, clock: Clock, sqrt: real -> real)
      returns (code: int, timings: seq<real>, results: Option<BenchmarkResults>)
    requires resolution.Ready? ==> resolution.config.warmup >= 0 && resolution.config.iterations >= 1
    modifies host, clock
    ensures Behaves(resolution, old(host.log), host.log, code, timings, results, sqrt)
  {
    timings := [];
    results := None;
    match resolution
    case Help =>
      code := 0;
    case ConfigError =>
      code := 1;
    case Ready(c) =>
      Warmup(host, c);
      timings := Measure(host, clock, c);
      RepeatAdd(InvocationOf(c), c.warmup, c.iterations);
      results := Some(Summarize(c.command, timings, c.iterations, sqrt));
      code := 0;
  }

  /**
   * main(argc, argv). Every spawn attempt is recorded in host.log; clock
   * readings come from clock; sqrt stands for std::sqrt. The exit status of
   * the benchmarked command does not affect main's.
   */
  method RunMain(argv: seq<string>, host: ProcessHost, clock: Clock, sqrt: real -> real)
      returns (code: int, timings: seq<real>, results: Option<BenchmarkResults>)
    requires |argv| >= 1
    modifies host, clock
    ensures Behaves(Resolve(argv), old(host.log), host.log, code, timings, results, sqrt)
  {
    var resolution := Configure(argv);
    if resolution.Ready? {
      ReadyIsRunnable(argv);
    }
    code, timings, results := RunResolved(resolution, host, clock, sqrt);
  }
}
