# Verified model of ccze-rs

ccze-rs colours log streams and, on request, watches them: it scores line lengths, checks a
service lifecycle, exports metric vectors, and ships library modules for scheduling hints, timing
analysis, self-healing configuration and policy evaluation. This project models the deterministic
part of that program in Dafny and proves what its algorithms guarantee. `dafny verify dfyconfig.toml`
checks everything.

Conventions of the model:

- `f64` arithmetic is exact real arithmetic. Standard deviations, z-scores and distances are
  represented by their squares; a negative computed variance stands for the not-a-number deviation
  its root would be. Vector files are modelled on raw 64-bit patterns instead.
- Machine integers are written out where they can wrap or saturate: 64-bit wrapping sums in the
  jitter window (release-build behaviour), saturating 32-bit lengths and counters, checked 32-bit
  decimals, 64-bit configuration integers.
- A log byte is a `char` with code below 256, so that keywords read as in the source. A stream or
  file is a sequence of bytes; a buffered reader exposes an arbitrary nonempty part of what is left.
- Clock readings, the logarithm and square root, the rounding of a real to a double, formatted note
  texts, the float parser, the printer of structured configuration values and the evaluation of a
  policy condition are parameters.
- Structures the source updates in place are classes or arrays; each method is tied to a function or
  predicate whose properties are proved as lemmas. Library sorts appear as what they promise: any
  arrangement by start for the unstable sort, and a stable sort that is proved to have one result.

## What the files hold

| files | subject |
|---|---|
| `CoreLoads`, `RoundRobin`, `CoreEnergy`, `Scheduler`, `Tightness`, `StableSort` | process placement, makespan bounds and their tightness, Ising energy |
| `Statistics`, `Entropy`, `Analytics`, `Timing`, `Windows` | rolling windows, variances, entropy and what an anomaly implies |
| `Bytes`, `Severity`, `Parser`, `Terminal`, `Renderer` | tokenizers, colouring, and a terminal that reads it back |
| `Records`, `Stream` | record reading and the main loop over a whole stream |
| `Decimal`, `Pid` | numerals and process-id extraction |
| `ConfigText`, `ConfigHealing` | configuration text round trip, schema healing |
| `Vectors`, `Ieee754`, `VectorFile`, `Baseline`, `Encoder` | metric vectors, their file format and rolling baseline |
| `VectorStream` | the encoding command over a whole stream |
| `Policy` | rule evaluation, decision log and statistics |
| `Protocol` | the lifecycle state machine over whole runs |

## Where the code departs from its description

The model follows the code. These departures are proved, with the exact condition where there is one:

- The round-robin strategy places every low-entropy process on one and the same core, and with no
  process above 0.5 everything on core 0 (`RoundRobin.LowsShareOneCore`, `Scheduler.AllLowPilesUp`).
- The balanced strategy never moves anything: its cost is constant, so it returns the round-robin
  placement (`Scheduler.IsingScheduler.OptimizeBalanced`).
- The energy does not depend on which cores are adjacent (`Scheduler.TopologyIrrelevant`).
- The sum of squared intervals can wrap: two gaps of 0 and 2^32 microseconds yield a negative
  variance, so a configured threshold sees no jitter (`Timing.OverflowHidesJitter`). In windows of at
  most 1000 intervals the variance comes out right exactly when the sum of squares fits 64 bits
  (`Timing.ComputedVarianceIff`). In longer ones the plain sum can wrap as well, and the variance is
  right exactly when the losses cancel (`Timing.ComputedVarianceIffLossesCancel`), which
  `Timing.BothSumsCanWrap` shows to happen. Whenever the squares fit, the detector flags exactly the
  windows whose true variance exceeds the squared threshold (`Timing.JitterDetector.Record`).
- Signatures are compared only while the window holds exactly six intervals: never below capacity
  6, and only at the seventh timestamp above it (`Timing.JitterWindow.Push`).
- A window that matches the second Spectre variant is named after it exactly while at most four
  intervals match the first variant too (`Timing.SpectreV2NamedIff`); `Timing.SpectreV2CanBeShadowed`
  gives a window on all six second-variant values that is named after the first.
- With the default threshold 3.5 the length test cannot fire in a window of fewer than 14 samples
  (`Analytics.DefaultThresholdNeedsFourteen`).
- Uncoloured output is the input without the carriage returns before newlines and before the end of
  the stream (`Stream.PlainStream`), so it equals the input exactly when there are none of those
  (`Stream.WithoutCrIsIdentity`).
- The vector of a record shows a phase other than Cold only when the record itself carries an accepted
  event that is no reset, whatever phase the service is in (`VectorStream.ExportedPhaseIff`).
- Removing invalid parameters can never repair a configuration, since only missing keys are errors;
  a configuration that is already valid keeps its foreign keys under every strategy
  (`ConfigHealing.HealingSucceedsIff`, `ConfigHealing.Healed` in the contract of `Heal`).
- The integers 0 and 1 print as text that reads back as booleans (`ConfigText.ValueRoundTrip`); which
  configurations survive printing and parsing is exact (`ConfigText.ConfigRoundTripIff`).
- The magnetization is the mean core number, not the balance of high- and low-entropy processes
  (`Scheduler.IsingScheduler.Optimize`).
- A vector record that is rejected as invalid is still counted as read (`VectorFile.VectorReader.Read`).
- An empty scheduling problem is answered but not remembered as the last result
  (`Scheduler.IsingScheduler.Optimize`).

## Model

| member | source | states |
|---|---|---|
| CoreLoads.GreedyRunUnique | src/scheduler.rs:312-334 | taking the first least-loaded core leaves no freedom: two such runs place every process alike |
| CoreLoads.LongestFirstBound | src/scheduler.rs:304-334 | after every placement each core is within 4/3 - 1/(3m) of any load bound another assignment of the same processes to m cores meets |
| CoreLoads.HeavyProcessFits | src/scheduler.rs:317-331 | a process heavier than a third of that bound still fits within it on the least-loaded core |
| CoreLoads.GreedyListBound | src/scheduler.rs:317-334 | m times any core load is at most the total placed plus (m - 1) times the heaviest process |
| CoreLoads.LoadPermutation | src/scheduler.rs:312-314 | a core's load does not depend on the order in which processes are listed |
| Scheduler.EntropyOrderSorts | src/scheduler.rs:304-310 | the index order enumerates all processes once, by descending entropy |
| Scheduler.TiesInIndexOrder | src/scheduler.rs:306-310 | processes of equal entropy are visited in index order |
| Scheduler.IsingScheduler.BestCore | src/scheduler.rs:318-329 | maximizing 1/(1 + load) selects the lowest-numbered core of least load |
| Scheduler.IsingScheduler.OptimizeGreedy | src/scheduler.rs:300-337 | in descending entropy order every process goes to the lowest-numbered core of least load |
| Scheduler.GreedyPlacementUnique | src/scheduler.rs:300-337 | entropies and core count determine the greedy placement |
| Scheduler.GreedyOnTwoCores | src/scheduler.rs:312-334 | four processes on two cores by their entropies: where each goes, a process weighing 1 plus its entropy |
| Scheduler.GreedySpreadsBusiest | src/scheduler.rs:317-331 | the k-th process of the order, k below the core count, gets core k |
| Scheduler.GreedyMakespan | src/scheduler.rs:300-337 | makespan bound from total and heaviest weight, a weight being 1 plus the entropy |
| Scheduler.GreedyCompetitive | src/scheduler.rs:300-337 | greedy core weights stay within (4/3 - 1/(3m)) of the makespan of every other placement |
| Tightness.GreedyRatioAttained | src/scheduler.rs:300-337 | for every number of cores, processes with entropies in [0,1] that another placement fits within 3 while greedy needs exactly (4/3 - 1/(3m)) times 3 |
| RoundRobin.HighsComeFirst | src/scheduler.rs:344-350 | the descending order lists all processes above 0.5 before the others |
| RoundRobin.HighsIs | src/scheduler.rs:356-359 | the high count is the number of entropies above 0.5 |
| RoundRobin.FewestHighs | src/scheduler.rs:374-380 | the first core with the fewest high-entropy processes is core H mod m |
| RoundRobin.HighsAreBalanced | src/scheduler.rs:356-359 | high-entropy processes per core differ by at most one, with the exact count of each core |
| RoundRobin.LowsShareOneCore | src/scheduler.rs:360-381 | all low-entropy processes land on core H mod m |
| Scheduler.AllLowPilesUp | src/scheduler.rs:360-381 | when no entropy exceeds 0.5 everything lands on core 0 |
| Scheduler.RoundRobinByEntropy | src/scheduler.rs:340-385 | with h entropies above 0.5, position k goes to core k mod m if its own is above 0.5 and to core h mod m otherwise; the former are kept apart while cores last |
| Scheduler.IsingScheduler.FewestHighsCore | src/scheduler.rs:360-380 | counting high-entropy processes per core and taking the first minimum gives core H mod m |
| Scheduler.IsingScheduler.OptimizeRoundRobin | src/scheduler.rs:340-385 | the k-th process goes to core k mod m while k < H and to core H mod m afterwards |
| Scheduler.IsingScheduler.OptimizeBalanced | src/scheduler.rs:388-427 | the refinement loop terminates and returns the round-robin placement |
| CoreEnergy.EnergyClosedForm | src/scheduler.rs:437-478 | the pairwise double loop equals minus the sum over cores of coupling times ((high - low)^2 - n)/2 |
| CoreEnergy.PairOf | src/scheduler.rs:449-473 | two processes: strength 1 on a core adjacent to itself and 1/2 otherwise, negative for one kind and positive for two, zero on different cores |
| CoreEnergy.EnergyAdds | src/scheduler.rs:445-473 | a further process adds exactly its energies with each of the others |
| CoreEnergy.EnergyInvariance | src/scheduler.rs:449-473 | the energy depends only on the diagonal couplings and the multiset of placements |
| Scheduler.TopologyIrrelevant | src/scheduler.rs:63-103 | topologies in which every core is adjacent to itself give one energy |
| Scheduler.Linear | src/scheduler.rs:66-79 | entries are set exactly for equal or neighbouring cores |
| Scheduler.FullyConnected | src/scheduler.rs:82-90 | every entry is set |
| Scheduler.Isolated | src/scheduler.rs:93-102 | entries are set exactly on the diagonal |
| Scheduler.IsingScheduler.CalculateEnergy | src/scheduler.rs:437-478 | the loop computes the sum over unordered pairs sharing a core |
| Scheduler.IsingScheduler.UpdateProcess | src/scheduler.rs:205-230 | overwrites the entry of the pid or appends one; pids stay distinct |
| Scheduler.IsingScheduler.RemoveProcess | src/scheduler.rs:233-240 | removes exactly the entry of the pid, if there is one |
| Scheduler.PidTable | src/scheduler.rs:205-240 | what it means that the table holds a pid, and that pids are distinct |
| Scheduler.IsingScheduler.Optimize | src/scheduler.rs:253-297 | placement by strategy, energy in closed form, mean core, number of moved processes, and when the result is remembered |
| Scheduler.CoreSumAdds | src/scheduler.rs:480-495 | core numbers add up to the sum that is averaged |
| StableSort.SortIsStable | src/scheduler.rs:306-310 | the sort permutes, descends by key and keeps ties in order |
| StableSort.StableSortUnique | src/lsm.rs:521-521 | every stable sort gives the same result |
| Statistics.OnePassVariance | src/timing.rs:215-219 | mean of squares minus squared mean is the population variance |
| Statistics.VarianceBelowSpread | src/timing.rs:198-219 | variance is at most (max - mean)(mean - min) |
| Statistics.Samuelson | native/fortran/analytics_fallback.c:24-30 | the newest sample's squared deviation is at most n - 1 variances |
| Statistics.TwoSamples | native/fortran/analytics_fallback.c:12-30 | mean and variance of two samples in numbers |
| Statistics.OutlierWindow | native/fortran/analytics_fallback.c:24-30 | the bound is attained when all samples but the newest are equal |
| Analytics.AnalyzeMetrics | native/fortran/analytics_fallback.c:5-41 | two-pass score of the newest sample, entropy of the error rate, verdict; zeros for an empty batch |
| Analytics.ZScoreBound | native/fortran/analytics_fallback.c:24-30 | the squared z-score is between 0 and n - 1 |
| Analytics.ReachableThresholds | native/fortran/analytics_fallback.c:30-40 | some window of n samples reaches threshold t exactly when t <= 0 or t^2 <= n - 1 |
| Analytics.OutlierScore | native/fortran/analytics_fallback.c:24-30 | n - 1 equal lengths and a different newest one score n - 1 |
| Analytics.DefaultThresholdNeedsFourteen | src/main.rs:49-51 | threshold 3.5 is out of reach below 14 samples |
| Analytics.ErrorArm | native/fortran/analytics_fallback.c:16-22 | the error test fires exactly when at least half of the samples are errors |
| Entropy.ComputeEntropy | native/fortran/analytics_fallback.c:32-39 | the accumulation yields the binary entropy, outcomes of rate zero contributing nothing |
| Entropy.EntropyIsUnit | native/fortran/analytics_fallback.c:32-39 | the entropy is between 0 and 1, 0 exactly for a rate of 0 or 1, and 1 at one half |
| Analytics.ReportedEntropy | native/fortran/analytics_fallback.c:16-39 | the reported entropy is 0 exactly when all samples of the window are errors or none is, and never above 1 |
| Analytics.AnalyticsWindow.constructor | src/analytics.rs:40-50 | capacity is clamped to at least two |
| Analytics.AnalyticsWindow.Push | src/analytics.rs:53-83 | over any run both deques hold the last samples in step; the verdict is that of the window, and the length test is silent when the squared threshold exceeds capacity - 1 |
| Analytics.VerdictOf | src/analytics.rs:53-83 | what is scored are the sample lengths themselves, capped at 0x7FFF_FFFF; anomalous exactly when the score reaches the threshold or half of the samples are errors |
| Analytics.OutlierIsScored | src/analytics.rs:53-83 | a line whose length differs from the equal lengths of all others in the window scores n - 1 |
| Analytics.ErrorCountIs | src/analytics.rs:59-60 | the error count is the number of samples flagged |
| Windows.LastNEnds | src/analytics.rs:54-60 | a window holds the newest samples, all of them or as many as fit |
| Analytics.WindowStep | src/analytics.rs:54-60 | popping when full and pushing on both deques keeps them images of one window |
| Timing.WindowsInStep | src/timing.rs:170-190 | the interval window is the consecutive differences of the timestamp window, one shorter |
| Timing.IntervalsSeparate | src/timing.rs:87-93 | an interval is the distance of its two timestamps in whole microseconds of 1000 nanoseconds, in either direction of time |
| Timing.JitterWindow.Push | src/timing.rs:170-190 | both deques are tails of one history with their exact lengths, capacity 0 included, each interval measuring its pair of timestamps; an attack is named only with six intervals; the variance is the true one when the squares fit, and up to capacity 1000 only then |
| Timing.JitterWindow.Accumulate | src/timing.rs:199-209 | wrapping sums, and a maximum and minimum that bound and belong to the window |
| Timing.JitterWindow.Analyze | src/timing.rs:193-244 | mean, computed variance, extremes, anomaly rule, attack and confidence of the window |
| Timing.ReportedAnalysis | src/timing.rs:211-223 | without overflow mean and variance are those of the window, and it is anomalous exactly when the variance exceeds 200 squared or some interval exceeds 600 |
| Timing.ReportedExtremes | src/timing.rs:207-233 | the extremes are the least and greatest interval; confidence is the squared share of 200, capped at 1, and 0 without anomaly |
| Timing.WrapsAtSixtyFourBits | src/timing.rs:204-206 | sums wrap exactly at 2^64 |
| Timing.ComputedVarianceExact | src/timing.rs:199-219 | without 64-bit overflow the computed variance is the population variance |
| Timing.ComputedVarianceIff | src/timing.rs:199-219 | in a window of at most 1000 timestamp distances the variance is right exactly when the sum of squares fits |
| Timing.ComputedVarianceIffLossesCancel | src/timing.rs:199-219 | in a window of any length the variance is right exactly when n times the loss of the squares equals the difference of the squared plain sums |
| Timing.BothSumsCanWrap | src/timing.rs:199-219 | 2048 equal distances of 2^53 microseconds wrap both sums and still give the true variance |
| Timing.SafeTotal | src/timing.rs:204-205 | the plain sum of at most 1000 distances of 64-bit timestamps fits 64 bits |
| Timing.SquaresDominate | src/timing.rs:204-206 | the sum of squares is at least the sum, so it overflows first |
| Timing.OverflowHidesJitter | src/timing.rs:206-220 | a concrete window whose computed variance is negative while the true one is 2^62 |
| Timing.DeviationNeedsRange | src/timing.rs:360-366 | a deviation above t needs two intervals more than 2t apart |
| Timing.AnomalyNeedsLongInterval | src/timing.rs:222-223 | without overflow an anomaly implies an interval above 400 microseconds |
| Timing.JitterDetector.Record | src/timing.rs:360-374 | a positive threshold replaces the anomaly rule only; without overflow it flags exactly the windows whose true variance exceeds the squared threshold, which implies a spread above twice the threshold |
| Timing.CompareSignature | src/timing.rs:291-312 | share of intervals within 20 percent of the signature, 0 on a length mismatch |
| Timing.MatchSignature | src/timing.rs:247-279 | five of six matches name an attack in the order of the tests, three are a generic anomaly |
| Timing.AttackByRanges | src/timing.rs:247-312 | every name by the literal ranges of the three attacks and the number of intervals in them |
| Timing.MeltdownIsUnambiguous | src/timing.rs:263-271 | a Meltdown match leaves at most two matches for either Spectre signature |
| Timing.SpectreV2NamedIff | src/timing.rs:263-271 | a second-variant match is named SpectreV2 exactly when at most four intervals match the first variant; for six matches, exactly when one of five values is below a stated bound; otherwise it is named SpectreV1 |
| Timing.SpectreV2CanBeShadowed | src/timing.rs:263-271 | a window with six second-variant matches that is named after the first variant |
| Bytes.FindIgnoringCase | src/severity.rs:77-86 | first occurrence apart from letter case, or none anywhere |
| Bytes.OccursIff | src/severity.rs:77-86 | a needle occurs exactly where a part of the text equals it apart from letter case |
| Bytes.ClassesByCode | src/parser.rs:184-195 | letters, digits, white space and lower case by their codes |
| SeverityModel.Join | src/severity.rs:25-40 | an upper bound of both severities that is one of them |
| SeverityModel.JoinOfCodes | native/agda/severity.c:3-8 | on the six codes the join is the maximum, on all other integers that of Info |
| SeverityModel.DetectWith | src/severity.rs:45-60 | folding any keyword list yields the largest of Info and the severities found |
| SeverityModel.Detect | src/severity.rs:44-60 | detection is the strongest keyword class present |
| SeverityModel.KeywordRank | src/severity.rs:45-60 | the rank of a line by the five words, and by nothing else |
| SeverityModel.LargestUnique | src/severity.rs:46-58 | the order of the keyword list does not matter |
| SeverityModel.SeverestMonotone | src/severity.rs:44-60 | bytes before or after a text never lower its severity |
| SeverityModel.SeverestIgnoresCase | src/severity.rs:77-86 | letter case never changes the severity |
| Parser.AddSeverityToken | src/parser.rs:197-216 | appends the token of the detected severity |
| Parser.SeverityTokenSpansKeyword | src/parser.rs:197-216 | one token exactly from Warn upwards, spanning the first occurrence of a keyword of that severity |
| Parser.SeverityTokenIff | src/parser.rs:199-214 | which word is highlighted and in which kind, in every case |
| Parser.ParseSyslog | src/parser.rs:71-103 | appends timestamp, host and process tokens as far as the header goes |
| Parser.SyslogHeaderShape | src/parser.rs:72-101 | header tokens are disjoint and increasing, end at their delimiter and contain none |
| Parser.SyslogHeaderIff | src/parser.rs:72-101 | when a line has the first, second and third header token, and what each spans, by byte values and positions |
| Parser.SyslogLine | src/parser.rs:71-103 | a line in the usual form shows its stamp, host and process under the syslog and the automatic plugin |
| Parser.ParseHttpd | src/parser.rs:111-153 | appends host, time, status and keyword tokens in that order, each as the lemmas below describe it, with the severity of status and keywords joined |
| Parser.HttpdHostShape | src/parser.rs:113-119 | a host exactly when the line holds a space: from the start to the first space |
| Parser.HttpdTimeShape | src/parser.rs:120-128 | a time exactly when a closing bracket follows an opening one: between the first opening bracket and the next closing one |
| Parser.HttpdStatusShape | src/parser.rs:129-150 | a status exactly when something other than white space follows the second quote: that word, an error for 5, a warning for 4, a value otherwise, with the matching severity |
| Parser.HttpdSeverityIff | src/parser.rs:112-152 | above Info, a severity is reached exactly when the keywords or the status class reach it |
| Parser.ParseJson | src/parser.rs:161-181 | appends the quoted texts of the line in order |
| Parser.JsonStringsShape | src/parser.rs:162-179 | one token per pair of quotes, enclosed in quotes, free of them, disjoint and increasing; a key exactly when a colon follows |
| Parser.Parse | src/parser.rs:53-63 | the automatic plugin's choice and each plugin's tokens and severity |
| Parser.AutoIff | src/parser.rs:53-63 | when the automatic plugin reads a line as JSON, syslog, access log or plain |
| Parser.TokensInLine | src/parser.rs:71-181 | all tokens of every plugin lie in the line; the severity is at least that of the keywords |
| Terminal.FeedText | src/lib.rs:94-96 | text without escapes is shown unchanged in the style in force |
| Terminal.FeedSgr | src/lib.rs:95-97 | a colour sequence shows nothing and only changes the style |
| Renderer.Render | src/lib.rs:82-101 | the loop produces the highlighted line without slicing out of range, or the line itself |
| Renderer.PaintedIsSeparate | src/lib.rs:90-98 | painted tokens lie in the line, do not overlap and advance |
| Renderer.PaintedAreTokens | src/lib.rs:90-98 | nothing but tokens is painted, each at most once |
| Renderer.ColourOfKind | src/lib.rs:104-116 | the colour sequence of each kind, byte by byte |
| Renderer.SkippedIsCovered | src/lib.rs:91-93 | a nonempty token in the line is skipped only if a painted one covers its start, ties in any order |
| Renderer.HighlightShows | src/lib.rs:82-116 | a terminal shows every byte of the line once, in the colour of the painted token covering it, and ends in default style |
| Renderer.HighlightErases | src/lib.rs:82-101 | deleting colour sequences gives back an escape-free line, whatever the tokens |
| Renderer.Processor.Process | src/lib.rs:68-79 | parse, sort by start and render: severity, tokens, and an output that shows the line |
| Records.SplitShape | src/main.rs:294-297 | splitting after newlines loses nothing and leaves one newline per record, at its end |
| Records.ScanStep | src/main.rs:294-306 | scanning an exposed part finds the end of the record or takes all of it |
| Records.ReadRecord | src/main.rs:283-312 | for every buffering the next record is read; failure exactly when it exceeds 1 MiB with its newline; bytes are neither lost nor duplicated |
| Stream.PlainStream | src/main.rs:138-171 | uncoloured records concatenate to the stream without carriage returns at line ends |
| Stream.CarriageReturnGoes | src/main.rs:145-170 | a line ending in carriage return and newline loses the carriage return only |
| Stream.WithoutCrIsIdentity | src/main.rs:145-170 | a stream passes unchanged exactly when no carriage return precedes a newline or the end |
| Stream.NoNotes | src/main.rs:150-167 | without analytics and verification the lines carry no notes |
| Stream.AnnotateAnomaly | src/main.rs:150-161 | the anomaly note is decided by the window over all records so far |
| Stream.AnomalyIff | src/main.rs:150-161 | a record is anomalous exactly when among the records the window holds its length scores the threshold or half are errors or worse |
| Stream.AnnotateViolation | src/main.rs:162-167 | the violation note appears exactly when the event is impossible in the phase reached by the earlier records |
| Stream.ViolationIff | src/main.rs:162-167 | the violation note is there exactly for an event the phase reached so far does not admit |
| Stream.LineForm | src/main.rs:145-170 | a record with either line ending or none becomes its text, the anomaly note, the violation note and its newline |
| Stream.RenderRecord | src/main.rs:145-170 | payload, notes and newline of one record, plain or as shown by a terminal |
| Stream.Run | src/main.rs:133-174 | whole-stream output up to the first oversized record, independent of buffering; colour shows the same lines as no colour |
| Decimal.NumeralValue | src/main.rs:274-281 | a printed numeral has the value it was printed from |
| Decimal.ValueByPosition | src/main.rs:278-280 | positional value, digit by digit |
| Decimal.ParseDecimalExact | src/main.rs:274-281 | parsing yields v exactly for nonempty digit strings of value v within 32 bits |
| Pid.ExtractPidIff | src/main.rs:253-272 | the number in the first brackets if it is a 32-bit numeral, else that after the first key, else 0 |
| Pid.BracketRoundTrip | src/main.rs:254-260 | any 32-bit id in the first brackets is recovered |
| Pid.KeyRoundTrip | src/main.rs:261-271 | any 32-bit id after the first `pid=` is recovered when no bracketed number takes precedence |
| Pid.KeyRoundTripWithoutBrackets | src/main.rs:261-271 | on a line without an opening bracket the id after the first `pid=` is recovered |
| ConfigText.WhiteByCode | src/config.rs:226-233 | which code points trimming removes |
| ConfigText.IntegerRoundTrip | src/config.rs:252-253 | every 64-bit integer reads back from its numeral |
| ConfigText.SignedNumerals | src/config.rs:252-253 | plus and minus signs, and the exact 64-bit limits |
| ConfigText.ValueRoundTrip | src/config.rs:236-258 | a printed value reads back exactly for the good values: not 0 or 1, not texts that read as something else |
| ConfigText.ValueReadsAs | src/config.rs:236-258 | how every text reads: as true, false, an integer, a float or itself |
| ConfigText.LineRoundTrip | src/config.rs:207-258 | a line with a good key and value reads back as that parameter |
| ConfigText.LineRoundTripOnlyIf | src/config.rs:207-258 | no other key or value survives its line |
| ConfigText.BareLines | src/config.rs:226-235 | blank lines and comments define nothing; a key alone, or with an equals sign alone, is true |
| ConfigText.PrintedForm | src/config.rs:203-211 | what a parameter prints as |
| ConfigText.LinesOfText | src/config.rs:225-225 | line ends: a newline, less one carriage return before it |
| ConfigText.FromStr | src/config.rs:222-270 | the loop inserts what each line defines, later lines overriding earlier ones |
| ConfigText.LaterLineWins | src/config.rs:225-268 | each line decides about its key and leaves the others alone |
| ConfigText.ConfigRoundTrip | src/config.rs:203-270 | a good configuration printed in any order of its entries parses back to itself |
| ConfigText.ConfigRoundTripIff | src/config.rs:203-270 | among configurations of texts, 64-bit integers and booleans exactly the good ones survive, in any order of entries |
| ConfigHealing.Validate | src/config.rs:302-312 | the errors are the missing required keys in schema order |
| ConfigHealing.MissingInOrder | src/config.rs:302-312 | missing keys are listed in schema order, as often as listed there |
| ConfigHealing.ConfigHealer.FillDefaults | src/config.rs:395-401 | adds defaults for exactly the missing required keys that have one, changing nothing else |
| ConfigHealing.ConfigHealer.Heal | src/config.rs:379-442 | valid configurations unchanged; otherwise success exactly as covered by defaults, values kept, foreign keys removed by the combined strategy, remaining errors exact |
| ConfigHealing.HealingIsIdempotent | src/config.rs:380-384 | a healed configuration validates and heals to itself |
| ConfigHealing.HealingIsDeterministic | src/config.rs:379-442 | the contract of healing fixes its result |
| ConfigHealing.HealingSucceedsIff | src/config.rs:388-441 | success condition and error keys of every strategy |
| ConfigHealing.RepairedContents | src/config.rs:388-441 | which keys and values a repaired configuration holds |
| ConfigHealing.ConfigHealer.Splice | src/config.rs:456-464 | the loop over the second configuration merges it over the first |
| ConfigHealing.SpliceLaws | src/config.rs:444-464 | splicing is associative and right-biased with the empty configuration as identity |
| Ieee754.UnitIntervalBits | src/vector.rs:150-154 | a pattern encodes a finite number of the unit interval exactly when it is at most that of 1.0 or is -0.0 |
| Ieee754.KnownEncodings | src/vector.rs:150-154 | the values of some bit patterns, given as numbers |
| VectorFile.ValidMeansNormalized | src/vector.rs:150-154 | the bit test is the documented validity of a vector |
| VectorFile.BinaryRoundTrip | src/vector.rs:158-184 | deserializing a serialized vector restores every bit |
| VectorFile.RecordRoundTrip | src/vector.rs:158-184 | every 64-byte record is the serialization of what it decodes to |
| VectorFile.RecordLayout | src/vector.rs:158-169 | where each feature stands in a record, least significant byte first |
| VectorFile.FileLayout | src/vector.rs:411-429 | magic text, version, and 64 bytes a vector in order |
| VectorFile.FileAcceptedIff | src/vector.rs:411-503 | a file reads to its end as vs exactly when it is the file written for vs and all features are valid |
| VectorFile.VectorWriter.Write | src/vector.rs:425-429 | the file is always the header and the vectors written so far |
| VectorFile.VectorReader.Open | src/vector.rs:460-474 | short or foreign headers are rejected, each with its error |
| VectorFile.VectorReader.Read | src/vector.rs:485-503 | end of file, truncated record, invalid record and valid record told apart, with position and count |
| VectorFile.ReadAll | src/main.rs:176-209 | accepts exactly the written files of valid vectors; before a defect it has shown exactly the valid vectors that precede it |
| Baseline.AverageClosedForm | native/fortran/vector_encoder_fallback.c:63-80 | the moving average is a convex combination of all samples: weights in closed form that add up to one and are not negative |
| Baseline.AverageOfFew | native/fortran/vector_encoder_fallback.c:63-80 | averages of one, two and three samples written out |
| Baseline.AverageWithin | native/fortran/vector_encoder_fallback.c:76-79 | the average stays between the bounds of its samples |
| Baseline.AveragesConverge | native/fortran/vector_encoder_fallback.c:76-79 | n common samples scale the difference of two averages by exactly (1 - alpha)^n |
| Encoder.ComputeStateVector | native/fortran/vector_encoder_fallback.c:32-60 | the slots lie in the unit interval exactly when the timestamp does and no metric but the z-score is negative |
| Encoder.FeaturesAreUnit | src/vector.rs:259-300 | every built vector has all features between 0 and 1 |
| Encoder.MetricsReadBack | src/main.rs:182-206 | what the decoder recovers of all eight metrics: severity, phase, process id, length, rate, entropy, z-score and second |
| Encoder.UpdateBaseline | native/fortran/vector_encoder_fallback.c:63-80 | first vector copied, later ones blended in place |
| Encoder.IsAnomaly | native/agda/vector.c:36-43 | squared distance compared with 9/16; for vectors that differ in one feature, the square of that difference decides, whichever it is |
| Encoder.DistanceOfEight | native/agda/vector.c:36-43 | the distance written out over all eight features |
| Encoder.RemainderIs | src/vector.rs:277-279 | what is left after as many whole minutes as fit |
| Encoder.RateIs | src/vector.rs:271-275 | the rate times the elapsed time is the line count, saturated at 32 bits |
| Encoder.DistanceAfterUpdate | src/vector.rs:365-382 | distance to the updated baseline is (1 - alpha) times that to the old one |
| Encoder.BaselineIsUnit | src/vector.rs:365-380 | the baseline of normalized vectors is normalized |
| Encoder.BaselinesConverge | src/vector.rs:365-380 | two encoders fed the same further vectors converge by (1 - alpha)^n in every feature |
| Encoder.VectorBuilder.Build | src/vector.rs:259-300 | counts the line, remembers the pid, and builds normalized features |
| Encoder.VectorEncoder.Encode | src/vector.rs:353-383 | the baseline is the weighted sum of all vectors; the flag compares with the old baseline scaled by (1 - alpha)^2; the first vector is never anomalous |
| VectorStream.ExportedPhaseIff | src/main.rs:235-239 | a phase other than Cold is exported exactly for records whose own event is accepted and no reset, and it is the phase reached |
| VectorStream.RecordReadsBack | src/main.rs:229-247 | what can be read back from the features of a record: severity, length, process id, phase, entropy, score and second |
| VectorStream.RoundedInPlace | src/main.rs:240-247 | rounding keeps each feature in its place |
| VectorStream.VectorsAreValid | src/main.rs:229-247 | every vector written for a stream is valid |
| VectorStream.EncodeStream | src/main.rs:211-250 | for every buffering the file holds one vector a record up to the first oversized one, each computed from the records so far, and decodes to exactly those |
| Policy.BestRule | src/lsm.rs:515-524 | the one-pass search finds the earliest rule among the highest-priority matches, or there is none |
| Policy.DecisionIff | src/lsm.rs:508-566 | which rule decides, by hook, conditions, priority and position, and what the decision holds; the default otherwise |
| Policy.IdOfNumeral | src/lsm.rs:532-547 | an id is the value of its 32-bit numeral, with or without plus, and 0 otherwise |
| Policy.SortedHeadWins | src/lsm.rs:515-524 | filter, stable sort by priority and take first is that search |
| Policy.AddingLowerRule | src/lsm.rs:488-492 | adding a rule of no higher priority than the winner changes no decision |
| Policy.RemovingLoser | src/lsm.rs:495-505 | removing a rule other than the winner changes no decision |
| Policy.MatchesRule | src/lsm.rs:179-186 | a rule matches exactly when all its conditions hold |
| Policy.LsmManager.EvaluateHook | src/lsm.rs:508-566 | the winner's decision is returned, recorded and, with logging on, logged; without a winner the default is returned and nothing recorded or logged; the log always ends in the recorded decisions |
| Policy.LsmManager.RemoveRule | src/lsm.rs:495-505 | removes the first rule of that name, if any |
| Policy.LsmManager.ListDecisions | src/lsm.rs:613-616 | the most recent decisions, newest first |
| Policy.CountsAddUp | src/lsm.rs:637-648 | every decision falls into exactly one of denied, allowed and audited |
| Policy.ColumnsByAction | src/lsm.rs:637-648 | the column of each action, silent denials counting as denials |
| Policy.LsmManager.GetStats | src/lsm.rs:631-660 | the columns add up to the decisions, which are the matched evaluations since the last clear |
| Protocol.NativeTableAgrees | native/idris/protocol.c:3-11 | the native table equals the typed transition function on all phases and events |
| Protocol.NextIff | native/idris/Protocol.idr:12-18 | the accepted steps, one by one |
| Protocol.NativeStep | native/idris/protocol.c:3-11 | the native step on all integers |
| Protocol.EventPrecedence | src/protocol.rs:61-72 | which word decides the event of a line, in what precedence, and which lines carry none |
| Protocol.PhaseRecordsHistory | src/protocol.rs:47-57 | in phase k the events accepted since the last reset are exactly the first k of the lifecycle |
| Protocol.StagesOf | src/protocol.rs:47-57 | the stages behind each phase, written out |
| Protocol.SinceResetIs | src/protocol.rs:47-57 | what counts since the last reset |
| Protocol.RunStep | src/protocol.rs:47-57 | an accepted line adds its event and moves the phase; any other does neither |
| Protocol.ReadyNeedsReset | src/protocol.rs:47-57 | two accepted ready events always have a reset between them |
| Protocol.IdleLinesIrrelevant | src/protocol.rs:47-57 | deleting rejected or event-free lines changes no later phase and no accepted event |
| Protocol.ProtocolVerifier.Inspect | src/protocol.rs:47-58 | accepts exactly the table's transitions, reports violations without moving, and keeps the history property |

## Left out

- Floating-point rounding, infinities and not-a-number inputs: reals throughout, except for file records.
- Scheduler.IsingScheduler.BestCore: requires entropies above -1, since at -1 the score would divide by zero; the documented range is 0 to 1.
- Scheduler.IsingScheduler.OptimizeGreedy: requires entropies above -1, as BestCore does.
- Scheduler.IsingScheduler.Optimize: requires entropies above -1 for the greedy strategy, as BestCore does.
- Timing.JitterDetector.Record: cache flushing on detection is not modelled, since it writes a scratch buffer only.
- Parser.Parse: parser selection by name for the command line and its error message are reduced to a lookup.
- ConfigText.ConfigRoundTrip: floats, lists and maps are printed by a parameter and excluded from the round trips, as their text does not determine them; the final sorting of lines is covered by allowing any order.
- Policy.LsmManager.EvaluateHook: log entries are the decisions themselves and are always written; their text, the time stamp and failing writes, which the source ignores, are not modelled. Conditions are an arbitrary predicate.
- Encoder.VectorEncoder.Encode: the 64-bit wrap of the vector counter is not modelled; the 32-bit saturation is.
- Debug builds, which stop on integer overflow instead of wrapping.
- Clocks, asynchronous I/O, file handles, command-line parsing and exit codes.
- Rule files, configuration files on disk and their watchers: text scraping around the modelled logic.
- The kernel-facing modules (cgroup, dkms, gossip, rollback, seccomp, xdp, zram) and the kernel-module half of the policy manager: shell-outs and simple tables.
