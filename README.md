# vajra measurement core, modelled in Dafny

vajra is a command-line benchmarking tool. It runs an external command a
number of warmup times, then a number of measured times, and times each
measured run with `std::chrono::high_resolution_clock`. It reports the mean, standard deviation,
minimum and maximum of the timings in milliseconds, either as coloured text or
as JSON. This project models the logic that decides those numbers:

- `Statistics` models the statistics functions over a sequence of samples, with
  samples as mathematical reals.
- `Timing` and `Profiling` model the `Timer` stopwatch and the sectioned
  `Profiler`. Clock readings are passed in as nanosecond counts.
- `Benchmarking` models `Benchmark::run`, which warms up and then times a callable.
- `Arguments` models the command-line parser:
  - the left-to-right scan of `argv`;
  - the option queries, including a model of the strict base-10 `strtol` check;
  - `validate`.
- `Progress` models the state of the progress bar and the line it draws,
  with the fill position and percentage computed by truncating integer division.
- `Command` models the quote-aware tokenizer `parseCommand` and the join of
  positional arguments into one command line.
- `Driver` models `main`:
  - `Resolve` is a reference reading of `main`'s configuration steps;
  - `RunMain` runs the warmup loop and the measured loop against stand-ins for
    the operating system and the clock, then summarises the samples.
- `Platform` holds the stand-ins:
  - a `Clock` whose readings never go back (an assumption, see "Left out");
  - a `Workload` that counts its calls;
  - a `ProcessHost` that records each spawn attempt (one per call of
    `executeCommand` or `std::system`) and maps a child's
    outcome to `executeCommand`'s return value.

Three behaviours of the code that are easy to get wrong, and that the model
follows:
- `executeCommand` never redirects the command's standard output or error; the
  children inherit the terminal. The model records only which spawns are
  attempted.
- Warmup draws no progress bar. Only the measured loop updates a bar.
- `main` exits with 1 when `validate` fails, as well as when the command
  tokenizes to nothing.

## Model

| member | source | states |
|---|---|---|
| Statistics.AccumulatePermutation | include/vajra.hpp:205-211 | the sum of a per-sample term (the sum itself, the squared deviations) depends only on the multiset of samples, not their order |
| Statistics.Sum | include/vajra.hpp:205-211 | the sum of no samples is 0 and of one sample is that sample (with SumAppend this fixes every sum) |
| Statistics.SumAppend | include/vajra.hpp:205-211 | sum over two runs of samples is the sum of their sums |
| Statistics.Mean | include/vajra.hpp:48-59 | mean of no samples is 0; otherwise it lies between the smallest and the largest sample |
| Statistics.MeanTimesCount | include/vajra.hpp:55-58 | for a non-empty sequence, mean times the sample count is the sum, so mean is sum / size |
| Statistics.MeanPermutation | include/vajra.hpp:48-59 | mean does not depend on the order of the samples |
| Statistics.MeanBounds | include/vajra.hpp:48-59 | the mean of a non-empty sequence lies between its minimum and its maximum |
| Statistics.Sort | include/vajra.hpp:74 | the sorted copy is in non-decreasing order and is a permutation of the samples |
| Statistics.SortPermutation | include/vajra.hpp:74 | two permutations of the same samples sort to the same sequence |
| Statistics.SortedUnique | include/vajra.hpp:74 | two sorted sequences with the same elements are equal, so the sorted copy is unique |
| Statistics.Median | include/vajra.hpp:67-84 | median of no samples is 0 |
| Statistics.MedianWithinRange | include/vajra.hpp:67-84 | for a non-empty sequence the median lies between min and max |
| Statistics.MedianOfOddCountIsSample | include/vajra.hpp:76-83 | with an odd count, the median is one of the samples |
| Statistics.MedianPermutation | include/vajra.hpp:67-84 | median does not depend on the order of the samples (it sorts a copy) |
| Statistics.Variance | include/vajra.hpp:92-108 | variance is 0 below two samples and never negative |
| Statistics.ComputeVariance | include/vajra.hpp:96-107 | the loop that adds squared deviations from the mean and divides by the count computes exactly the population variance |
| Statistics.VarianceDividesByCount | include/vajra.hpp:107 | the divisor is N, not N - 1: the variance of [1, 3] is 1 |
| Statistics.VariancePermutation | include/vajra.hpp:92-108 | variance does not depend on the order of the samples |
| Statistics.ConstantSamples | include/vajra.hpp:92-108 | for identical samples the mean is that value and the variance and range are 0 |
| Statistics.StdDev | include/vajra.hpp:116-124 | standard deviation is 0 below two samples; with a true square root it is non-negative and squares to the variance |
| Statistics.StdDevPermutation | include/vajra.hpp:116-124 | standard deviation does not depend on the order of the samples |
| Statistics.Min | include/vajra.hpp:132-137 | min of no samples is 0; otherwise it is one of the samples and no sample is smaller |
| Statistics.Max | include/vajra.hpp:145-150 | max of no samples is 0; otherwise it is one of the samples and no sample is larger |
| Statistics.MinMaxPermutation | include/vajra.hpp:132-150 | min, max and range do not depend on the order of the samples |
| Statistics.Range | include/vajra.hpp:192-197 | range is never negative and bounds the difference of any two samples |
| Statistics.SortedEnds | include/vajra.hpp:171 | the sorted copy starts with min and ends with max |
| Statistics.Rank | include/vajra.hpp:166-173 | after clamping p to [0, 100], the rank index p/100*(n-1) lies in [0, n-1] |
| Statistics.RankAt | include/vajra.hpp:166-173 | p at or below 0 gives rank 0; p at or above 100 gives rank n-1; p = 50 gives (n-1)/2 |
| Statistics.InterpolateWhole | include/vajra.hpp:174-179 | at a whole rank index the element at that index is returned |
| Statistics.InterpolateHalf | include/vajra.hpp:181-183 | half-way between two ranks the two neighbours are averaged |
| Statistics.InterpolateWithinEnds | include/vajra.hpp:174-183 | on sorted data the interpolated value lies between the first and the last element |
| Statistics.Percentile | include/vajra.hpp:159-184 | percentile of no samples is 0 |
| Statistics.PercentileWithinRange | include/vajra.hpp:159-184 | for any p and a non-empty sequence the percentile lies between min and max |
| Statistics.PercentileExtremes | include/vajra.hpp:163-178 | p at or below 0 gives the minimum and p at or above 100 the maximum |
| Statistics.PercentilePermutation | include/vajra.hpp:159-184 | percentile does not depend on the order of the samples |
| Statistics.PercentileFiftyIsMedian | include/vajra.hpp:67-184 | the 50th percentile equals the median, for even and odd counts |
| Timing.Timer.constructor | include/vajra.hpp:241 | a new timer is neither started nor running and reads 0 elapsed |
| Timing.Timer.Start | include/vajra.hpp:247-251 | start records the reading; the timer is running and elapsed time is live (now - start) |
| Timing.Timer.Stop | include/vajra.hpp:256-259 | stop records the end reading; elapsed time is then fixed at end - start, or 0 if never started |
| Timing.Timer.Reset | include/vajra.hpp:314-317 | after reset the timer is not running and every elapsed reading is 0 |
| Timing.Timer.ElapsedNanoseconds | include/vajra.hpp:294-301 | 0 before the first start; the live distance now - start while running; the fixed distance end - start once stopped |
| Timing.Timer.ElapsedSeconds | include/vajra.hpp:265-272 | seconds are the nanosecond count divided by 10^9 |
| Timing.Timer.GetName | include/vajra.hpp:307-309 | the result is the name given to the constructor (Timing.Timer.constructor keeps it) |
| Timing.Timer.IsRunning | include/vajra.hpp:323-325 | true exactly when the timer is running, and a running timer has been started |
| Timing.Timer.ElapsedMilliseconds | include/vajra.hpp:278-280 | milliseconds are the nanosecond count divided by 10^6 |
| Timing.Timer.ElapsedMicroseconds | include/vajra.hpp:286-288 | microseconds are the nanosecond count divided by 10^3 |
| Profiling.Profiler.constructor | include/vajra.hpp:488-490 | a new profiler has no recorded durations and no active timers |
| Profiling.Profiler.Start | include/vajra.hpp:496-499 | a fresh running timer replaces any active one for the section; other sections and all recorded data are unchanged |
| Profiling.Profiler.Stop | include/vajra.hpp:505-512 | with no active timer nothing changes; otherwise exactly one duration in seconds (stop reading minus that timer's start reading) is appended to that section and its timer is removed; the timers of all other sections stay active, running and keep their start readings |
| Profiling.Profiler.GetTimingData | include/vajra.hpp:548-550 | the returned map is the recorded timing data itself: every section maps to exactly the durations recorded for it |
| Profiling.OverlappingSections | include/vajra.hpp:496-512 | two sections timed with overlapping intervals (a over 10..30 ns, b over 20..50 ns) each record their own duration: stopping a leaves b's timer running |
| Profiling.Profiler.AddTiming | include/vajra.hpp:519-521 | exactly one entry is appended to the section; active timers are unchanged |
| Profiling.Profiler.Clear | include/vajra.hpp:555-558 | both maps are emptied |
| Benchmarking.Benchmark.constructor | include/vajra.hpp:579-580 | name and both counts are kept as given |
| Benchmarking.Benchmark.Run | include/vajra.hpp:588-605 | the callable is invoked warmupIterations + iterations times, and exactly iterations non-negative durations are returned |
| Platform.Clock.Now | include/vajra.hpp:248 | a clock reading is never earlier than the previous one |
| Platform.ExitStatus | src/main.cpp:13-37 | -1 exactly when fork failed or the child did not exit normally; otherwise the exit code reduced to 0..255 |
| Platform.ProcessHost.Execute | src/main.cpp:13-37 | each call of executeCommand is exactly one direct spawn attempt with the given arguments (no child exists when fork fails) and returns ExitStatus of its outcome, -1 for a failed fork |
| Platform.ProcessHost.System | src/main.cpp:125 | each call of std::system is exactly one shell spawn attempt with the raw command string |
| Arguments.ParseArgs | include/argparser.h:192-211 | the parse loop yields argv[0] as program name and exactly the options and positionals of the left-to-right scan of the rest |
| Arguments.ScanKeys | include/argparser.h:198-201 | key k is present exactly when some argument is "--k" |
| Arguments.ScanLastValue | include/argparser.h:198-206 | the last "--k" decides the value: the next argument if it exists and does not start with '-', else "" |
| Arguments.ScanPositionals | include/argparser.h:202-208 | the positionals are exactly, in command-line order, the arguments that are not options and were not taken as the value of the option just before them (a word not starting with '-' after an option); each is an argument and not an option |
| Arguments.MixedPositionals | include/argparser.h:198-208 | "--a x y" leaves only "y" positional, while "--a -x y" leaves "-x" and "y" |
| Arguments.FromArgv | include/argparser.h:214-216 | the constructor keeps argv[0] as program name and its positionals are exactly the free arguments of the rest |
| Arguments.HasIffGetIgnoresDefault | include/argparser.h:218-226 | has(k) holds exactly when get(k, d) does not depend on the default d |
| Arguments.ScanWithoutOptions | include/argparser.h:207-208 | with no option present, all arguments are positionals in their original order |
| Arguments.NegativeAfterOption | include/argparser.h:201-206 | in "--warmup -5 ls", warmup gets "" and "-5" stays positional |
| Arguments.ShellTakesNextWord | include/argparser.h:201-204 | in "--shell echo hi", "echo" becomes the value of shell and only "hi" is positional |
| Arguments.HasFromArgv | include/argparser.h:218-220 | has(k), membership of k among the parsed options, holds after parsing exactly when "--k" occurs after the program name |
| Arguments.Get | include/argparser.h:222-226 | get returns the stored value, or the default when the key is absent |
| Arguments.GetInt | include/argparser.h:228-240 | getInt returns the default for an absent key or a malformed value (empty included), and n for the decimal text of any n |
| Arguments.ParseFormatted | include/argparser.h:233-237 | the strict strtol check reads the decimal text of every integer back as that integer |
| Arguments.ParseSkipsSpaces | include/argparser.h:233-237 | leading white space does not change the parsed value |
| Arguments.ParseLong | include/argparser.h:233-237 | whatever strtol accepts with nothing left over ends in a digit |
| Arguments.DigitsAccepted | include/argparser.h:233-237 | a non-empty run of plain digits is always accepted |
| Arguments.NonDigitRejected | include/argparser.h:233-237 | a character that is not a digit after the first position, with no leading space, makes the text rejected |
| Arguments.ParseRejects | include/argparser.h:233-237 | the empty string, a lone sign and trailing characters are rejected |
| Arguments.GetIntSafe | include/argparser.h:242-263 | an absent key gives (true, default); a malformed value gives false and leaves the output unchanged; otherwise the result agrees with getInt |
| Arguments.Validate | include/argparser.h:269-326 | validate holds exactly when there is a positional, a present warmup is a well-formed integer >= 0, a present iterations is a well-formed integer >= 1, and a present output is json or text |
| Arguments.NegativeWarmupIsMalformed | include/argparser.h:278-293 | "--warmup -5 ls" fails validation because warmup's value is empty, before the sign is ever checked |
| Arguments.MalformedCountRefused | include/argparser.h:278-310 | a present warmup or iterations value that the strict strtol check rejects fails validation |
| Arguments.ValidateExamples | include/argparser.h:295-310 | "--iterations 0 ls" fails validation; a bare command passes |
| Progress.TruncDivTruncates | include/argparser.h:91-92 | the integer quotient truncates toward zero: the remainder is 0 or has the dividend's sign, and is smaller than the divisor |
| Progress.Draw | include/argparser.h:90-128 | spinner frame is the counter mod 10; an ETA exists exactly when 0 < current < total; cell i is filled below the fill position, the boundary at it, empty above |
| Progress.EtaNonNegative | include/argparser.h:100-104 | the estimate is never negative |
| Progress.DrawAtZero | include/argparser.h:90-128 | at 0 there is no ETA, 0%, the first cell is the boundary and the rest are empty |
| Progress.DrawComplete | include/argparser.h:90-128 | at total there is no ETA, 100%, and every cell is filled |
| Progress.FillMonotone | include/argparser.h:91-92 | within 0..total more progress never moves the fill position back, and it stays within the bar |
| Progress.ProgressBar.constructor | include/argparser.h:79-82 | count and spinner start at 0 and the start time is not yet captured |
| Progress.ProgressBar.Update | include/argparser.h:84-129 | the start time is captured on the first update only; current becomes the value; the spinner counter advances by one; the line drawn is Draw of the new state |
| Progress.ProgressBar.Finish | include/argparser.h:131-134 | finish is update(total) and draws a full bar at 100% with no ETA |
| Command.ParseCommand | src/main.cpp:39-64 | the scanning loop returns exactly Tokenize of the command |
| Command.BlankHasNoTokens | src/main.cpp:44-63 | an empty or all-space command has no tokens |
| Command.TokensWellFormed | src/main.cpp:47-61 | no token is empty and no token contains either quote character |
| Command.TokensAreNonSpaceCharacters | src/main.cpp:44-61 | without quotes, the tokens joined together are the command with its spaces removed |
| Command.OpenQuoteSwallowsRest | src/main.cpp:47-61 | after an unbalanced quote every later character, spaces included, joins the current token |
| Command.QuotedPhrase | src/main.cpp:44-61 | word "phrase with spaces" word gives three tokens, and either quote character closes what either opened |
| Command.TabDoesNotSeparate | src/main.cpp:49-56 | only ' ' separates: "a\tb" is one token |
| Command.Join | src/main.cpp:93-99 | the join loop puts one space between consecutive positionals |
| Command.JoinRoundTrip | src/main.cpp:93-103 | tokenizing the join of non-empty words without spaces or quotes gives the words back |
| Driver.Configure | src/main.cpp:67-109 | the configuration steps of main compute exactly Resolve |
| Driver.ReadyIsRunnable | src/main.cpp:80-109 | a runnable configuration has warmup >= 0, iterations >= 1, output json or text, a non-empty token list in direct mode, and the defaults 5 and 100 for absent counts |
| Driver.HelpWins | src/main.cpp:69-78 | "--help" anywhere after the program name shows help |
| Driver.BlankCommandRefused | src/main.cpp:101-108 | a command of spaces passes validate but is refused in direct mode |
| Driver.Summarize | src/main.cpp:167-173 | for non-negative samples 0 <= min <= mean <= max; with a true square root the standard deviation is non-negative |
| Driver.Warmup | src/main.cpp:118-133 | warmup calls executeCommand or std::system exactly warmup times and keeps nothing |
| Driver.Measure | src/main.cpp:138-165 | the measured loop calls executeCommand or std::system exactly iterations times and keeps one non-negative millisecond sample per run |
| Driver.RunOnce | src/main.cpp:124-128 | one run is exactly one spawn attempt: std::system with the command string in shell mode, executeCommand with the tokens otherwise |
| Driver.RunResolved | src/main.cpp:111-181 | help and configuration errors attempt no spawn and exit 0 and 1; a runnable configuration makes warmup + iterations spawn attempts, keeps iterations samples and reports their summary |
| Driver.RunMain | src/main.cpp:66-182 | main behaves as RunResolved does for Resolve of its argv; the command's own exit status never changes main's exit code |
| Driver.ExampleParse | include/argparser.h:192-211 | "vajra --warmup 0 --iterations 10 true" parses to the options warmup 0 and iterations 10 and the one positional "true" |
| Driver.ExampleCounts | include/argparser.h:242-326 | that parse passes validation and reads warmup as 0 and iterations as 10 |
| Driver.ExampleResolve | src/main.cpp:67-109 | "--warmup 0 --iterations 10 true" resolves to ten direct runs of ["true"] with no warmup |
| Driver.ExampleRun | src/main.cpp:66-182 | that run makes exactly ten direct spawn attempts, keeps ten samples and reports 0 <= min <= mean <= max |

## Left out

- Terminal output is left out. This covers every `std::cout`/`std::cerr` write, the ANSI colours, `ProgressBar::clear`, the line-clearing escapes, `showHelp`/`showOptionHelp`, `BenchmarkResults::display` and `toJson`, `Benchmark::printStats` and `ScopedTimer`'s printing. The model keeps only the values these would print.
- Memory queries (`Memory::getMemoryInfo`, `formatMemory`) and `Profiler::measure`, which calls an opaque `std::function` and reads memory, are operating-system I/O and are not modelled.
- `fork`/`execvp`/`waitpid` and `std::system` are not modelled. `ProcessHost` records each spawn attempt, one per call of `executeCommand` or `std::system`, whether or not a child results (a failed `fork` or a shell that cannot be spawned leaves none); a fixed `ChildOutcome` stands for how each attempt ends.
- Platform.ProcessHost.System does not constrain the status `std::system` returns, because its encoding is platform-defined and `main` ignores it.
- Real clock reads are parameters. `Clock` promises that readings never decrease, and the model assumes this: `high_resolution_clock` is not required to be steady (libstdc++ makes it `system_clock`, which can be set back). The non-negative timings of Driver.Measure, Benchmarking.Benchmark.Run, Driver.Summarize and Driver.ExampleRun, and Progress.EtaNonNegative's premise, hold only for such a clock; with a clock that steps back the source can record negative durations.
- Progress.ProgressBar.Update takes one clock reading. The source reads the clock twice on the first update: once for the start time and once for the elapsed time.
- Numbers are mathematical reals and integers, not IEEE doubles and floats. Rounding of the mean, the variance and the percentile interpolation is not modelled.
- The fill position and the percentage use truncating integer division. The source uses a `float` quotient, which can differ by one: 29/100 as a float times 100 truncates to 28.
- Statistics.StdDev: `std::sqrt` is a parameter. Its properties are stated only for a function that is a true square root.
- `formatTime`, the rainbow colour thresholds of the bar and the ops/s figure of `toJson` are left out. `toJson` divides by a mean of 0 without a guard.
- Progress.ProgressBar.constructor requires total != 0. With total 0 the source divides by zero in float and then converts infinity or NaN to int, which is undefined behaviour. `main` always builds the bar with at least one iteration.
- Arguments.GetInt and Arguments.GetIntSafe read values as unbounded integers. They do not model `strtol`'s clamping of out-of-range values or the narrowing of `long` to `int`.
- Arguments.ParseLong covers decimal digits only, matching base 10. The C locale's white space is space and the characters 9 to 13.
