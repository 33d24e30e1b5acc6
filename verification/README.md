# Verified model of ironmon's computing core

ironmon watches a machine's hardware. Most of its code moves bytes between the operating system and the screen; this
project models the parts that decide something and proves what they promise:

- the sliding-window statistics and the anomaly rule engine on top of them (`src/anomaly.rs`),
- the CSV, scheduled-task and `systemd-analyze` readers (`src/boot_config.rs`),
- fan curves, the PWM quantisation and the fan writes (`src/fan_control.rs`),
- the cpufreq setters, the refresh that reads them back and the summary (`src/cpufreq.rs`),
- history buffers and GPU slot alignment (`src/backend.rs`),
- `/proc/net` address, row and table decoding (`src/connections.rs`),
- adoption of files left by the old project name (`src/legacy_paths.rs`),
- environment-block parsing (`src/ai_workload.rs`).

Code that updates its fields in place is a class here (`MetricWindow`, `AnomalyDetector`, `BootMonitor`, `FanMonitor`,
`CpuFreqMonitor`, `HistoryBuffer`, `Accelerators`, `FileSystem`), with methods proved against functions on values; the
laws are then proved about those functions, over all inputs and all runs. Floating-point numbers are exact reals. The
square root in the standard deviation never appears: `sd` is any non-negative real whose square is the variance, and
the comparisons of z-scores with thresholds are decided on squares (`TestsMatchScore` says that this is the same). A
directory of files is a map from path to text; what the system lists, lets be read and accepts for writing is arbitrary.
Unicode lower-casing is any function that agrees with the usual one on ASCII and puts no white space around trimmed text.

## How it fits together

`Recent`, `Reals`, `Text` and `FileStore` are shared vocabulary. `Statistics` gives meaning to a window's numbers,
`MetricWindow` keeps them in place, `AnomalyRules` is one detection as a function of the detector's state,
`AnomalyDetector` is the in-place detector, `AnomalyRuns` has runs and the cooldown between alerts, `AnomalyReports`
says metric by metric what a run reports, and `AnomalyLaws` has the gap report and the reach of the statistical rules.
`FanReadings` and `CpuReadings` say what discovery shows of the files under sysfs and which files the setters of
`FanControl` and `CpuFreq` change. Every other module stands for one source file, except that `src/boot_config.rs` is
split into `Csv` and `Systemd`, `src/cpufreq.rs` into `CpuFreq`, `CpuReadings` and `CpuSummary`, `src/fan_control.rs`
into `FanControl` and `FanReadings`, and `src/connections.rs` into `ProcNet` and `NetTables`.

A method is proved against a function on values, and those functions are tied to laws that do not name them: what a
record, a report or a row holds is said in terms of file texts, recorded readings and printed numbers.

## What the proofs found in the code

The model keeps these as they are and states exactly when the code meets the promise.

- A z-score of a value against a window that holds it cannot exceed (n - 1)/sqrt(n), unless the spread is so small that
  the score falls back to 100 (`OwnValueScore`); windows of three values or more can do that (`FallbackIff`). So the
  thresholds some window of n values exceeds are those within reach, and through the fallback every one below 100
  (`ExceedableIff`); `NetworkReachable` says the same of runs. With the defaults and up to 16 samples the network rule
  fires on the fallback only, while the gap report calls it checked from 10 (`DefaultNetworkFloor`).
- The gap report mirrors what the samples held can make fire, except for a statistical check that `min_samples` admits
  on one sample or none (`GapMirror`). A detector can answer Clear that never saw the network
  (`ClearWithoutNetwork`) or saw one sample of everything (`ClearOnOneSample`). One whose `min_samples` does not fit in
  its window never answers Clear (`ClearIsSound`).
- An alert is raised exactly when its rule holds and no alert of its key is younger than the cooldown (`CooldownIff`,
  `ReportedIff`). A CPU warning therefore mutes a later critical reading: both levels share one key
  (`EscalationIsMuted`).
- An IPv6 address is decoded with the bytes of each 32-bit word reversed, so it is right exactly when every word reads
  the same backwards (`V6RoundTripIff`, `RowSwaps6`); `::1` is misread (`LoopbackIsMisread`). An IPv6 field shorter than
  32 characters with a good port panics (`PanicIff`, `LineCrashIff`), and one such line loses the rows and errors of all
  four families (`AnswerIff`, `OneLineLosesAll`).
- A `systemd-analyze` output with one phase and no `=` adds the durations of later lines to that phase and lets a word
  on a later line name the field (`LoneReads`, `LonePhaseIff`, `LoaderTakesUserspace`). The line systemd-analyze prints
  next does that (`TargetLineAdds`).
- A file that users create at the current path while adoption is under way is overwritten (`OverwritesIff`,
  `UserFileIsLost`). A copy that breaks off leaves a partial file, which every later call takes for the user's own
  (`RetryAfterFailure`).
- The frequency summary shows the true minimum, average and maximum exactly when no 32-bit or 64-bit value overflows
  (`SummaryIsTrueIff`); then they are in order (`SummaryIsOrdered`), and otherwise the average can leave the range
  (`CastBreaksOrder`).
- An unknown governor name reads back exactly when it is trimmed, in lower case and not the name of a known
  governor (`GovernorRoundTrip`).
- A Jetson duty value above 255 is capped while its percentage is not, so a fan can show more than 100 % (`JetsonCap`).
- Windows and buffers with a declared size of 0 hold one value (`Recent.PushAllIsLastN`).
- Neither the bounds nor the monotonicity of a fan curve need its temperatures to be sorted, and the final 100 % is
  never reached (`SpeedIsBounded`, `SpeedIsMonotone`).

## Model

| member | source | states |
|---|---|---|
| `Recent.PushAllIsLastN` | src/anomaly.rs:261-271 | any number of pushes onto an empty window leaves exactly the newest max(1, max_size) values, in order |
| `MetricWindows.MetricWindow.constructor` | src/anomaly.rs:252-259 | a new window is empty and its sums agree with it |
| `MetricWindows.MetricWindow.Push` | src/anomaly.rs:261-271 | every push keeps the sums equal to the sums over the contents, and the contents equal to the newest values ever pushed |
| `MetricWindows.MetricWindow.Mean` | src/anomaly.rs:277-283 | the mean from the running sum is the mean of the contents |
| `MetricWindows.MetricWindow.Variance` | src/anomaly.rs:291-298 | the one-pass variance from the running sums is the two-pass sample variance of the contents, so the clamp at zero never acts |
| `MetricWindows.MetricWindow.ZBeyond` | src/anomaly.rs:307-320 | the test on the cached sums decides abs(z) > t for the contents |
| `MetricWindows.MetricWindow.ZAbove` | src/anomaly.rs:307-320 | the test on the cached sums decides z > t for the contents |
| `Statistics.OnePassVariance` | src/anomaly.rs:291-298 | (sum_sq - sum²/n)/(n - 1) equals the mean squared distance from the mean with divisor n - 1, so it is never negative |
| `Statistics.TestsMatchScore` | src/anomaly.rs:307-320 | the square-free tests decide exactly the comparisons made on the z-score, fallback of 0 or 100 included |
| `Statistics.Samuelson` | src/anomaly.rs:291-320 | Samuelson's inequality: no value of a window is further from its mean than (n - 1)/sqrt(n) standard deviations |
| `Statistics.OwnValueScore` | src/anomaly.rs:307-320 | a window's own value scores within ±(n - 1)/sqrt(n) if and only if it does not take the fallback score of 100 or 100 is within that bound; with spread 0 it scores 0, never 100 |
| `Statistics.OnlyFallbackExceeds` | src/anomaly.rs:307-320 | for every window: a threshold with (n - 1)² <= t²·n is exceeded by a value of the window if and only if the value takes the fallback and t < 100 |
| `Statistics.NegativeThreshold` | src/anomaly.rs:307-320 | the same for negative thresholds: exceeded unless the deviation is negative and exactly at the bound |
| `Statistics.ExceedableIff` | src/anomaly.rs:307-320 | some window of n values has a newest value above t if and only if (n - 1)² > t²·n, or n >= 3 and t < 100; only the former with a spread of 0 or at least 1e-10 |
| `Statistics.ReachGrows` | src/anomaly.rs:307-320 | a threshold out of reach of c values is out of reach of every smaller window |
| `Statistics.FallbackIff` | src/anomaly.rs:309-316 | the fallback of 100 for a window's own newest value happens in some window of n values if and only if n >= 3 |
| `Statistics.TrendWithinSpread` | src/anomaly.rs:326-336 | the trend never exceeds max - min in either direction |
| `Statistics.RisingTrend` | src/anomaly.rs:326-336 | a window that never falls has a trend between 0 and its total rise |
| `Statistics.TrendWeighsHalves` | src/anomaly.rs:326-336 | the trend times both half lengths is the newer total times the older length minus the older total times the newer length; it is 0 below three values |
| `Statistics.TrendOfLine` | src/anomaly.rs:326-336 | readings that rise by the same amount each time have a trend of that amount times half their number |
| `AnomalyRules.AfterIs` | src/anomaly.rs:472-680 | each rule is judged against the cooldowns from before the detection, and the alerts raised are exactly those of the rules that hold with their key out of cooldown |
| `AnomalyRules.OneAlertPerKey` | src/anomaly.rs:472-680 | one detection never reports a key twice, whatever the cooldown |
| `AnomalyRules.VerdictMeaning` | src/anomaly.rs:204-213 | Findings exactly when some rule holds with its key out of cooldown; Clear exactly when none does and no check is listed as not run |
| `AnomalyRules.ListedIff` | src/anomaly.rs:438-469 | a check is listed exactly when its gap condition holds |
| `AnomalyReports.GapReasons` | src/anomaly.rs:438-469 | exactly which checks are listed and why: no sample, fewer than needed with both numbers, and for GPU temperature a sensor never read or no longer read |
| `AnomalyReports.GapsInOrder` | src/anomaly.rs:454-468 | checks are listed in their fixed order, each at most once |
| `AnomalyLaws.GapMirror` | src/anomaly.rs:436-469 | a check is listed as not run exactly when no readings of as many samples could make it fire under thresholds of at least 0, if and only if it is not a statistical check that min_samples admits on one sample or none |
| `AnomalyLaws.ClearIsSound` | src/anomaly.rs:427-469 | after any run a detection answers Clear if and only if no check is listed as not run and every rule that holds has an alert of its key stamped less than the cooldown before; every check could then have fired if and only if both statistical windows hold two samples, and min_samples fits in a window |
| `AnomalyLaws.ClearWithoutNetwork` | src/anomaly.rs:465-466 | with min_samples = 0 a detector without any network sample can answer Clear |
| `AnomalyLaws.ClearOnOneSample` | src/anomaly.rs:457-466 | with min_samples = 1 one sample of each metric is enough for Clear, although neither statistical check can fire on it |
| `AnomalyLaws.NetworkOutOfReach` | src/anomaly.rs:623-644 | on every window with (n - 1)² <= (1.5·threshold)²·n the network rule fires if and only if the newest rate takes the fallback and the scaled threshold is below 100; never when the spread is 0 or at least 1e-10 |
| `AnomalyLaws.NetworkBelowZero` | src/anomaly.rs:623-644 | what a negative threshold does on such windows, exactly |
| `AnomalyLaws.NetworkReachable` | src/anomaly.rs:623-644 | some run fires the network rule on n receive samples if and only if min_samples admits n, the window holds n, and the scaled threshold is within reach of n or, with three samples, below 100; only within reach when the spread is 0 or at least 1e-10 |
| `AnomalyLaws.DefaultNetworkFloor` | src/anomaly.rs:69-85 | with the defaults and up to 16 samples the rule fires if and only if there are 10 and the newest takes the fallback; the check is called run from 10; runs that end with a spread of 0 or at least 1e-10 can fire it exactly from 17 to 60 |
| `AnomalyLaws.CpuSpikeOutOfReach` | src/anomaly.rs:505-518 | the CPU spike rule on a window too small for the unscaled threshold fires if and only if the newest value is below both levels and takes the fallback, and the threshold is below 100 |
| `AnomalyLaws.TrendNeedsSpread` | src/anomaly.rs:519-535 | no trend alert on a window whose values stay within 15 points |
| `AnomalyRuns.RunKeeps` | src/anomaly.rs:652-680 | every run keeps all alerts of a key spaced, the cooldown table exactly the newest stamp of every key alerted so far, and no stamp in the future |
| `AnomalyRuns.AlertsAreSpaced` | src/anomaly.rs:652-680 | over every run of records and detections with a clock that never goes back, two alerts with one key are at least alert_cooldown apart |
| `AnomalyRuns.CooldownIff` | src/anomaly.rs:652-680 | at the end of any run a rule whose condition holds raises its alert if and only if every earlier alert of its key was stamped at least the cooldown before |
| `AnomalyRuns.ReportedIff` | src/anomaly.rs:472-680 | a detection at the end of any run reports an anomaly under a key if and only if the rule of that key holds under it and every earlier alert of the key is at least the cooldown old |
| `AnomalyReports.MemoryReported` | src/anomaly.rs:538-567 | after any run a memory anomaly is reported if and only if the newest reading is at or above one of the two levels and no memory alert is younger than the cooldown; it carries that reading and is critical exactly from the critical level on, a warning below it |
| `AnomalyReports.CpuReported` | src/anomaly.rs:476-504 | the same for CPU usage |
| `AnomalyReports.CpuSpikeReported` | src/anomaly.rs:505-518 | a CPU spike is reported if and only if the newest reading is below both levels, min_samples are held, its score is beyond the threshold in either direction and its key has rested; as information |
| `AnomalyReports.CpuTrendReported` | src/anomaly.rs:519-535 | a CPU trend is reported if and only if min_samples are held, the trend is above 15 and its key has rested, whatever the levels say; as a warning |
| `AnomalyReports.GpuTempReported` | src/anomaly.rs:569-601 | the two levels on what the last record said; nothing once the sensor could not be read |
| `AnomalyReports.DiskReported` | src/anomaly.rs:603-620 | disk usage is reported if and only if the newest reading is at or above its one level and its key has rested; always as a warning |
| `AnomalyReports.NetworkReported` | src/anomaly.rs:622-644 | a receive anomaly is reported if and only if min_samples are held, the newest rate scores above one and a half thresholds and its key has rested; as information, in megabytes per second |
| `AnomalyReports.DefaultSeverities` | src/anomaly.rs:69-85 | with the defaults CPU and memory anomalies are critical exactly from 95 and GPU temperatures from 90, and none is below 85, 85, 80 or, for disk, 90 |
| `AnomalyRuns.WindowsAre` | src/anomaly.rs:379-420 | after every run each of the seven windows is the newest max(1, window_size) readings recorded of its own metric, in order |
| `AnomalyRuns.LatestGpuIs` | src/anomaly.rs:391-405 | the GPU readings judged are what the last records said, and none once a sensor could not be read |
| `AnomalyLaws.SmallWindowFiresOnFallback` | src/anomaly.rs:623-644 | with a window_size out of reach of the scaled threshold, after every run the network rule fires if and only if the newest rate takes the fallback and the scaled threshold is below 100 |
| `AnomalyRuns.EscalationIsMuted` | src/anomaly.rs:477-504 | after any run a CPU reading at or above either level is reported if and only if no CPU alert of either level was raised within the cooldown |
| `AnomalyDetectors.AnomalyDetector.constructor` | src/anomaly.rs:360-376 | a new detector is the empty state of the rule engine |
| `AnomalyDetectors.AnomalyDetector.RecordCpu` | src/anomaly.rs:378-381 | the in-place record is one step of the value model and keeps every window's cache |
| `AnomalyDetectors.AnomalyDetector.RecordGpuTemp` | src/anomaly.rs:388-396 | a failed reading clears the latest value and adds nothing to the window |
| `AnomalyDetectors.AnomalyDetector.RecordNetworkRx` | src/anomaly.rs:412-415 | the in-place record is one step of the value model |
| `AnomalyDetectors.AnomalyDetector.Detect` | src/anomaly.rs:427-434 | one detection reports exactly the alerts and gaps of the value model and leaves its cooldown table |
| `AnomalyDetectors.AnomalyDetector.CheckGaps` | src/anomaly.rs:438-469 | the six notes in order are the gap report of the value model |
| `AnomalyDetectors.AnomalyDetector.FindAnomalies` | src/anomaly.rs:472-647 | the five rule blocks raise exactly what the six rules of the value model raise |
| `AnomalyDetectors.AnomalyDetector.MaybeAlert` | src/anomaly.rs:652-680 | alert and stamp exactly when the key is out of cooldown, else change nothing |
| `Csv.SplitCsvLine` | src/boot_config.rs:1001-1019 | the quote-state loop computes the record scan whose round trip is proved below |
| `Csv.RecordRoundTrip` | src/boot_config.rs:1001-1019 | every non-empty record of bare fields and quoted fields with doubled quotes (section 2 of RFC 4180) splits back into exactly its fields |
| `Csv.MixedRoundTrip` | src/boot_config.rs:1001-1019 | fields that change between bare and quoted pieces are split back into exactly the text of their pieces |
| `Csv.UnclosedQuote` | src/boot_config.rs:1001-1019 | a quote that is never closed takes the rest of the line, commas included |
| `Csv.StartupTasksFromCsv` | src/boot_config.rs:1028-1074 | the line loop computes the table reading whose laws are below |
| `Csv.TableRoundTrip` | src/boot_config.rs:1028-1074 | reading any printed table gives, in order, its startup-scheduled rows looked up by the first column of each name, with empty values where a row is short, and nothing if one of the four columns is missing |
| `Csv.RowMeaning` | src/boot_config.rs:1047-1070 | a row gives an item if and only if its schedule type names logon, start up, startup or boot in any case; the item has the row's name, is enabled exactly for Ready and Running and disabled exactly for Disabled, and has no command exactly for an empty one |
| `Csv.ValueIs` | src/boot_config.rs:1033-1047 | a value stands where its name first stands in the header and is empty when the row is too short |
| `Csv.ScheduledConcat` | src/boot_config.rs:1045-1072 | rows are read one after another, in order |
| `Csv.ColumnOrderIsIrrelevant` | src/boot_config.rs:1028-1044 | when the four names looked up stand at most once and rows are full-width, permuting the columns of the header and of every row alike leaves the result unchanged, whatever the line ends |
| `Systemd.ParseSystemdDuration` | src/boot_config.rs:973-996 | the token loop computes the sum over the words that are durations, and nothing when none is |
| `Systemd.TotalConcat` | src/boot_config.rs:973-996 | token sums distribute over concatenation of token lists |
| `Systemd.DurationConcat` | src/boot_config.rs:973-996 | durations add over texts joined by a space |
| `Systemd.FractionIs` | src/boot_config.rs:981-983 | the digits after the point are worth their whole number over ten to their count |
| `Systemd.NumeralReads` | src/boot_config.rs:981-983 | every number with or without sign, point and digits reads back as all its digits over the power of ten of its places |
| `Systemd.RealIff` | src/boot_config.rs:981-983 | exactly the texts of that form are numbers |
| `Systemd.WordReads` | src/boot_config.rs:979-994 | a number followed by a unit is worth that many units |
| `Systemd.WordIff` | src/boot_config.rs:979-994 | a word is a duration if and only if it is a number followed by h, min, s, ms or us; every other word is skipped |
| `Systemd.AmountReads` | src/boot_config.rs:980-994 | every printed amount in h, min, s, ms or us reads back as its exact number of seconds |
| `Systemd.SecondsAreExact` | src/boot_config.rs:983-994 | the seconds of an amount are its whole part and its digits as one whole number over a power of ten, times the unit |
| `Systemd.SpanReads` | src/boot_config.rs:973-996 | every list of printed amounts reads back as its exact sum |
| `Systemd.BootMonitor.ReadSystemdAnalyze` | src/boot_config.rs:396-425 | the in-place reader sets the fields as the function on values does |
| `Systemd.PhaseWord` | src/boot_config.rs:405-413 | a printed phase contains a known word exactly when that is its label, so the order of the tests does not matter |
| `Systemd.AnalyzeRoundTrip` | src/boot_config.rs:396-425 | for every line of labelled phases and a total, followed by any lines without '+', each known phase and the total are recovered exactly |
| `Systemd.PhaseRecovered` | src/boot_config.rs:405-413 | a label's field holds the last phase that carried it, or what it held before |
| `Systemd.LoneReads` | src/boot_config.rs:400-414 | without '+' and '=' the whole output is one part: durations on later lines are added and the first known word found anywhere names the field |
| `Systemd.LonePhaseIff` | src/boot_config.rs:400-425 | an output of one phase without '=' is read right, whatever was stored before, if and only if no word tested before its label stands on a later line and, if the phase has a field, the later lines hold no duration or durations summing to zero |
| `Systemd.LoaderTakesUserspace` | src/boot_config.rs:405-413 | the word loader on a later line takes the seconds of a lone userspace phase |
| `Systemd.TargetLineAdds` | src/boot_config.rs:396-415 | the second line systemd-analyze prints is added to a lone phase without a total, and given to userspace when the phase has no field |
| `FanControl.CalculateSpeed` | src/fan_control.rs:382-412 | the segment scan computes the curve below and divides by a positive range on every path |
| `FanControl.SpeedOnSegment` | src/fan_control.rs:398-409 | strictly inside the curve the first segment that ends at or above the temperature answers, and the speed lies on the straight line through its two ends |
| `FanControl.SpeedOutside` | src/fan_control.rs:383-396 | at or below the first temperature and at or above the last the end speed answers, and 100 without any point |
| `FanControl.SpeedIsBounded` | src/fan_control.rs:382-412 | every non-empty curve, sorted or not, answers between its smallest and largest speed |
| `FanControl.SpeedIsMonotone` | src/fan_control.rs:382-412 | non-decreasing speeds make the curve monotone in temperature, even with temperatures out of order |
| `FanControl.CurveHitsPoints` | src/fan_control.rs:382-412 | a curve over distinct sorted temperatures passes through its points |
| `FanControl.MonotoneIff` | src/fan_control.rs:382-412 | over distinct sorted temperatures the curve is monotone if and only if its speeds never fall |
| `FanControl.PwmReadsBack` | src/fan_control.rs:871 | a speed in range gives a PWM value in 0..255 without saturation, and reading it back is off by at most 100/510 |
| `FanControl.PwmIsNearest` | src/fan_control.rs:871 | the value written is the nearest to 255/100 of the speed, the higher one on a tie, 0 below and 255 above the range |
| `FanControl.ShownSpeed` | src/fan_control.rs:650 | 255 times the percentage shown is 100 times the PWM value |
| `FanControl.PwmIsMonotone` | src/fan_control.rs:871 | the PWM value never falls as the speed rises |
| `FanControl.PipelineIsMonotone` | src/fan_control.rs:559-565 | the written value never falls as the temperature rises |
| `FanControl.PwmRoundTrip` | src/fan_control.rs:527-530 | every PWM value survives the trip through a percentage |
| `FanControl.FanMonitor.LinuxDiscoverFans` | src/fan_control.rs:609-709 | the loops over devices and channels 1 to 10 and the Jetson paths list exactly the channels with a PWM file and the Jetson directories, in order; an existing hwmon directory that cannot be listed to its end is an error and keeps the fans read so far |
| `FanReadings.ListedIff` | src/fan_control.rs:609-719 | exactly the channels 1 to 10 with a PWM file of every directory delivered are listed, and the two Jetson directories only after a complete listing |
| `FanReadings.ChannelPlace` | src/fan_control.rs:635-639 | the channels of a directory are listed once each, in order |
| `FanReadings.DevicesConcat` | src/fan_control.rs:618-705 | directories are listed one after another |
| `FanReadings.ChannelName` | src/fan_control.rs:627-644 | a fan is named after its device, or its directory when there is no readable name, and its channel number |
| `FanReadings.ChannelPwm` | src/fan_control.rs:646-653 | the PWM value is the number in the channel's file, the percentage is its share of 255, and both are unknown without a number below 256 |
| `FanReadings.ChannelEnable` | src/fan_control.rs:654-673 | mode 0 is full speed, 1 manual and every other automatic; a fan takes commands if and only if the mode is not 0 and the PWM file may be written, and that is unknown exactly when its permission bits are |
| `FanReadings.ChannelNoEnable` | src/fan_control.rs:654-673 | without a readable mode nothing is claimed about it |
| `FanReadings.ChannelRpm` | src/fan_control.rs:675-698 | the three speeds are the numbers in the channel's own three files, and unknown without them |
| `FanReadings.JetsonReads` | src/fan_control.rs:712-766 | what is shown of a Jetson directory, field by field, from its files |
| `FanControl.FanMonitor.DiscoverChannel` | src/fan_control.rs:635-701 | the readings of one channel: PWM, enable mode, controllability, profiles and RPM limits |
| `FanControl.FanMonitor.LinuxDiscoverJetsonFans` | src/fan_control.rs:712-766 | the loop over the two Jetson paths appends exactly the readings of those that exist |
| `FanControl.FanMonitor.SetCurve` | src/fan_control.rs:549-551 | the named curve is replaced and no other |
| `FanControl.FanMonitor.SetSpeed` | src/fan_control.rs:499-524 | range check, then the write step, on the file store |
| `FanControl.FanMonitor.LinuxSetFanSpeed` | src/fan_control.rs:856-886 | the write step for a speed of any size: fan lookup, path, first existing PWM file, saturated value, write |
| `FanControl.FanMonitor.ApplyCurve` | src/fan_control.rs:559-565 | nothing without a curve, else the write step for the curve's speed |
| `FanControl.CurveNeverRejected` | src/fan_control.rs:559-565 | a curve with speeds in 0..100 never trips the range check |
| `FanControl.WriteEffect` | src/fan_control.rs:856-886 | rejected exactly out of range; a failure changes no file; a success changes one existing PWM file to a value in range that stands for the speed to within 100/510 |
| `FanReadings.SetSpeedIff` | src/fan_control.rs:499-886 | each outcome of set_speed: out of range first, then a name no fan has; else the first fan of that name decides, and success changes exactly its pwm1, or target_pwm when there is no pwm1, to the nearest value |
| `FanControl.SetPwmIsExact` | src/fan_control.rs:527-530 | set_pwm(v) succeeds if and only if the fan has a file that takes the text of v, writes exactly v there, and the next discovery reads exactly v from a hwmon pwm1 or a Jetson target_pwm |
| `FanControl.JetsonCap` | src/fan_control.rs:726-733 | a Jetson duty value and its shown speed agree, and the speed stays within 100 percent, if and only if the value is at most 255 |
| `CpuReadings.GovernorNames` | src/cpufreq.rs:79-97 | which text is which governor, the three spellings of amd_pstate included, and that every other text is unknown under its own name |
| `CpuFreq.GovernorRoundTrip` | src/cpufreq.rs:63-97 | printing, trimming and parsing a governor gives it back if and only if it is a known one or its name is trimmed, lower case and unknown, for any lower-casing that is the usual one on ASCII and adds no white space |
| `CpuFreq.CpuFreqMonitor.Refresh` | src/cpufreq.rs:445-449 | the directory loop and the sort give exactly the records of the CPU directories; a directory that cannot be listed to its end ends it with the records so far |
| `CpuFreq.CpuFreqMonitor.DiscoverCpu` | src/cpufreq.rs:658-776 | the record of one CPU directory, with the offline and missing-directory exits and the failure on an unlistable cpuidle directory |
| `CpuFreq.OnlineIff` | src/cpufreq.rs:668-679 | from the text of the file: a CPU is online if and only if there is no online file or it reads 1, offline if and only if it reads anything else, and unknown if and only if it cannot be read |
| `CpuReadings.IdIff` | src/cpufreq.rs:651-662 | the CPU directories are exactly those named cpu and a number that fits 32 bits |
| `CpuReadings.RecordShows` | src/cpufreq.rs:697-711 | a CPU not said to be offline shows the numbers in its three frequency files, and its MHz is the floor of its kHz over 1000 as long as that fits |
| `CpuReadings.RecordGovernor` | src/cpufreq.rs:729-735 | its governor is named by the trimmed text of its file and unknown without a readable one |
| `CpuReadings.RecordIsBare` | src/cpufreq.rs:681-690 | a CPU said to be offline, or without cpufreq directory, shows nothing else |
| `CpuReadings.ListedIff` | src/cpufreq.rs:647-779 | a refresh that succeeds lists exactly the records of the CPU directories, as often as they were delivered, by increasing id |
| `CpuReadings.RefreshFailsIff` | src/cpufreq.rs:647-779 | a refresh fails if and only if the CPU directory or the idle states of a CPU not said to be offline cannot be listed to their end, and leaves the records before the first such CPU |
| `CpuFreq.SortOrders` | src/cpufreq.rs:778-779 | the listed CPUs are in order of id and are exactly the records read |
| `CpuFreq.CpuFreqMonitor.SetMinFreq` | src/cpufreq.rs:971-994 | the write loop with early exit, then the refresh, as one step on files and list |
| `CpuFreq.CpuFreqMonitor.SetMaxFreq` | src/cpufreq.rs:997-1020 | the same for the maximum |
| `CpuFreq.CpuFreqMonitor.SetGovernor` | src/cpufreq.rs:918-943 | the same for the governor |
| `CpuFreq.WriteEffect` | src/cpufreq.rs:971-994 | the loop succeeds exactly when every target takes the text, and then exactly the targets hold it; else it fails at a CPU whose write was refused, with exactly the targets before it changed |
| `CpuFreq.OfflineUntouched` | src/cpufreq.rs:974-977 | the file of a CPU known to be offline never changes unless another record claims its directory |
| `CpuFreq.OfflineNeverWritten` | src/cpufreq.rs:974-990 | on a list made by a refresh of other files, maybe long before: a CPU whose directory said offline then keeps its file under every setter, failed ones too; if every write is taken, every other listed CPU that has the file gets the text |
| `CpuFreq.RefreshReadsBack` | src/cpufreq.rs:622-782 | for any list the monitor holds, however old: after a setter whose writes succeed, the refresh shows what a refresh just before would have shown, except that every CPU whose file was written and can be read shows the written text, parsed; it fails exactly when that refresh would have |
| `CpuFreq.MinFreqReadsBack` | src/cpufreq.rs:971-994 | for any list: every CPU not said to be offline by its files whose minimum file was written and can be read is re-read as exactly the requested number, and no other record moves |
| `CpuFreq.MaxFreqReadsBack` | src/cpufreq.rs:997-1020 | the same for the maximum |
| `CpuFreq.GovernorReadsBack` | src/cpufreq.rs:918-943 | for any list: every CPU written to reads back the governor itself if and only if its name survives printing and parsing, and nothing else moves |
| `CpuFreq.MatchingList` | src/cpufreq.rs:974-977 | on the list a refresh of the same files made, the records that move are exactly those of the directories not said to be offline whose file exists and can be read |
| `CpuReadings.MinFreqOnFiles` | src/cpufreq.rs:971-994 | on that list: a CPU without online file or with the text 1 gets exactly the number in its minimum file and shows it; one with the text 0 keeps its file and its record |
| `CpuReadings.MaxFreqOnFiles` | src/cpufreq.rs:997-1020 | the same for the maximum |
| `CpuReadings.GovernorOnFiles` | src/cpufreq.rs:918-943 | the same for a governor whose name survives printing and parsing |
| `CpuSummary.SummaryIsTrueIff` | src/cpufreq.rs:1375-1399 | minimum, average and maximum in MHz are all the true ones if and only if no reading and no sum overflows its type |
| `CpuSummary.SummaryIsOrdered` | src/cpufreq.rs:1375-1399 | minimum <= average <= maximum in MHz despite two nested floor divisions, when no cast or sum overflows |
| `CpuSummary.DiscoveredSummaryIsOrdered` | src/cpufreq.rs:1375-1399 | the same for the summary of every list a discovery makes |
| `CpuSummary.SummaryKnownTogether` | src/cpufreq.rs:1387-1399 | the three aggregates are known together, exactly when a usable core reported a frequency |
| `CpuSummary.CastBreaksOrder` | src/cpufreq.rs:698-702 | two readings beyond 32 bits of MHz average below their own minimum |
| `CpuSummary.CountsAddUp` | src/cpufreq.rs:1401-1409 | a known online count plus the offline count is the total, and the count is unknown exactly when some state was not read |
| `CpuSummary.OnlineCountIs` | src/cpufreq.rs:1401-1409 | the online count is the number of records that are online, and unknown exactly when one state was not read |
| `CpuSummary.ReadingsConcat` | src/cpufreq.rs:1381-1387 | the readings the aggregates are made of are those of each record, in order |
| `CpuSummary.OneReadingOf` | src/cpufreq.rs:1381-1387 | a record contributes its reading if and only if it is not offline and has one |
| `CpuSummary.DiscoveryIsOneReading` | src/cpufreq.rs:697-702 | in every discovered list the kHz and MHz of each CPU come from one reading |
| `History.HistoryBuffer.Push` | src/backend.rs:513-518 | the buffer stays the newest max(1, capacity) values pushed since it was cleared |
| `History.HistoryBuffer.Previous` | src/backend.rs:530-533 | the second newest value is known exactly when two were pushed and the capacity is at least two |
| `History.TakeDynamicSlots` | src/backend.rs:984-994 | the iterator, advanced once per slot, fills the slots whose alignment is proved below |
| `History.SlotAt` | src/backend.rs:984-994 | result i ends up in slot i, whatever the others were; slots without a result are empty |
| `History.FailureStays` | src/backend.rs:984-994 | a device whose sample fails empties its own slot and moves no other |
| `History.Accelerators.constructor` | src/backend.rs:790-801 | one empty buffer per static slot in each of the three lists, none shared, which is the empty run |
| `History.Accelerators.UpdateGpus` | src/backend.rs:996-1024 | every object stays tied to its run: the three series of each slot are what the updates and resets so far make of them |
| `History.Accelerators.ResetHistory` | src/backend.rs:1535-1549 | a reset is one step of that run |
| `History.SeriesAreOwnReadings` | src/backend.rs:996-1024 | over every run of updates and resets, series i is exactly what device i reported since the last reset |
| `History.Accelerators.BuffersShowNewest` | src/backend.rs:503-518 | in every reachable object the three buffers of device i hold exactly the newest max(1, history_size) values it gave since the last reset of utilization, of memory utilization and of temperature |
| `History.OthersDoNotMatter` | src/backend.rs:984-1024 | changed or failed samples on other devices never change or shift the series of device i, over any run |
| `History.Accelerators.AcceleratorStates` | src/backend.rs:1405-1448 | the state loop computes the list whose laws are below |
| `History.StatesAreOwn` | src/backend.rs:1405-1448 | every listed accelerator carries its own device's name, readings and process count, whatever the other devices did |
| `History.StatesRise` | src/backend.rs:1405-1448 | the list is in device order |
| `History.StatesSkipOnlyUnread` | src/backend.rs:1405-1412 | every slot whose static query succeeded is listed |
| `ProcNet.V4RoundTrip` | src/connections.rs:714-739 | for every IPv4 address and port, decoding the kernel's hex text gives back both |
| `ProcNet.V6IsTextOrder` | src/connections.rs:722-733 | the IPv6 branch returns the 16 byte pairs in text order for every text of at least 32 hex digits |
| `ProcNet.V6SwapsWords` | src/connections.rs:722-733 | for every address, what the kernel prints is decoded with the bytes of each word reversed |
| `ProcNet.V6RoundTripIff` | src/connections.rs:722-733 | the decoded address is the right one if and only if every 32-bit word reads the same backwards |
| `ProcNet.LoopbackIsMisread` | src/connections.rs:722-733 | `::1` is decoded as another address |
| `ProcNet.PanicIff` | src/connections.rs:714-733 | the slice panics exactly on an IPv6 field shorter than 32 characters with a good port |
| `ProcNet.AddressIff` | src/connections.rs:714-739 | exactly which texts are addresses: two parts around one colon, a 16-bit port, and a 32-bit number or 16 pairs of hexadecimal digits |
| `ProcNet.V4Reads` | src/connections.rs:734-738 | an IPv4 address is the little-endian word of its number, however many digits it has |
| `NetTables.StateIff` | src/connections.rs:741-756 | decoding a state inverts the kernel's numbering of the eleven states; 0 and every number above 11 are unknown |
| `NetTables.RowStateIs` | src/connections.rs:679-683 | every row has no state for UDP and, for TCP, the state whose number its fourth word spells, unknown for any other number or text |
| `NetTables.RowIff` | src/connections.rs:662-678 | a line gives a row if and only if it has ten words of which the second and third are addresses |
| `NetTables.RowRoundTrip` | src/connections.rs:662-712 | every line with the words of an IPv4 kernel row decodes to its own endpoints, the state of its number, the owner of its inode and that owner's name; the remote end is given exactly for non-listening sockets with a port |
| `NetTables.PaddedRow` | src/connections.rs:663-666 | a row printed with any padding of its columns has exactly the words printed, so the two laws cover the kernel's padded rows |
| `NetTables.RowSwaps6` | src/connections.rs:662-712 | every line with the words of an IPv6 kernel row gives its own ports, state and owner but addresses with each word's bytes reversed; an end is right if and only if every word reads the same backwards |
| `NetTables.LineCrashIff` | src/connections.rs:662-733 | a line panics if and only if it is an IPv6 row of ten words whose local field has a good port and fewer than 32 characters, or whose local field parses and whose remote field is such |
| `NetTables.ParseProcNet` | src/connections.rs:640-660 | the line loop, with the header skipped before its read is looked at, computes the table below |
| `NetTables.TableIff` | src/connections.rs:647-659 | a table is delivered exactly when every line was read and none panics, with one row per well-formed line |
| `NetTables.RowPlace` | src/connections.rs:647-659 | each well-formed line's row stands right after the rows of the lines before it |
| `NetTables.RowOrigin` | src/connections.rs:647-659 | every row of a table comes from the well-formed line that stands at its place |
| `NetTables.CrashIff` | src/connections.rs:647-659 | reading a table panics if and only if some line slices past its end and every line before it was sound |
| `NetTables.AllConnectionsChecked` | src/connections.rs:217-232 | all four tables are read, then their rows and errors are collected in family order; a panic ends the call |
| `NetTables.AnswerIff` | src/connections.rs:217-232 | an answer is delivered if and only if no family's table panics |
| `NetTables.OneLineLosesAll` | src/connections.rs:217-232 | a failing input: one short address in the tcp6 file loses the rows and errors of every family |
| `NetTables.RowPosition` | src/connections.rs:217-232 | row n of a family stands right after the rows of the families before it |
| `NetTables.NoRowIsHidden` | src/connections.rs:217-232 | the rows of an answer are exactly those that well-formed lines of families read to their end give, each under its own protocol |
| `NetTables.NoErrorIsHidden` | src/connections.rs:217-232 | an answer names a family as failed if and only if its file could not be read to the end |
| `LegacyPaths.LegacyPath` | src/legacy_paths.rs:55-69 | the component loop computes the rewriting below |
| `LegacyPaths.LegacyPathMeaning` | src/legacy_paths.rs:30-69 | exactly the paths with a component ironmon have a legacy path: the one with simon in place of each of them; it has none of its own |
| `LegacyPaths.FileSystem.Adopt` | src/legacy_paths.rs:75-105 | adoption step by step, with anything users do between its check, its directories and its copy |
| `LegacyPaths.OverwritesIff` | src/legacy_paths.rs:75-105 | adoption changes or removes an existing file if and only if users left the current path written between the check and the copy, and the copy then runs and leaves another text; it is then that file |
| `LegacyPaths.UserFileIsLost` | src/legacy_paths.rs:75-105 | a failing input: a file a user creates at the current path just before the copy is lost to the legacy text |
| `LegacyPaths.AdoptKeeps` | src/legacy_paths.rs:75-105 | a file users do not touch meanwhile stays as it is, and no file appears but the current one, under every fault |
| `LegacyPaths.AdoptKeepsDirs` | src/legacy_paths.rs:75-105 | a directory users do not remove meanwhile stays |
| `LegacyPaths.AdoptCopies` | src/legacy_paths.rs:93-104 | an adopted file equals its legacy source as it was at the copy, whatever users did meanwhile; the next call answers AlreadyPresent and does nothing |
| `LegacyPaths.LegacyConsentIff` | src/legacy_paths.rs:108-113 | a legacy file is named if and only if the current path is free and a file stands at its place before the rename |
| `LegacyPaths.AdoptedIff` | src/legacy_paths.rs:75-105 | whatever users do meanwhile: exactly when the copy is reached, and exactly when it then adopts |
| `LegacyPaths.AdoptMakesDirs` | src/legacy_paths.rs:86-94 | an adoption makes exactly the missing directories above the path |
| `LegacyPaths.AdoptAnswers` | src/legacy_paths.rs:75-105 | exactly when each of the four answers is given: Failed and not Adopted if and only if a file stands where a directory above the path would have to be made |
| `LegacyPaths.RetryAfterFailure` | src/legacy_paths.rs:93-104 | a retry after a failure adopts exactly when the failure left no file; a broken copy sticks |
| `LegacyPaths.UntouchedFilesStay` | src/legacy_paths.rs:75-105 | over every interleaving of adoptions and user writes, also inside adoptions, a file no user touches keeps its text |
| `LegacyPaths.RepeatsAreIdle` | src/legacy_paths.rs:71-78 | while the file is not removed, every repeat over every run answers AlreadyPresent and changes nothing |
| `Environ.SeparatedRoundTrip` | src/ai_workload.rs:795-807 | for every list of pairs, parsing the NUL-separated block gives the map in which the last pair of each key wins, and no other key |
| `Environ.TerminatedRoundTrip` | src/ai_workload.rs:795-807 | NUL-terminated blocks parse to the same map |
| `Environ.BlockReads` | src/ai_workload.rs:795-807 | every block, entries without an equals sign and empty ones included, gives each key its last value and no other key |
| `Environ.LastWinsIsUnique` | src/ai_workload.rs:795-807 | that map is determined by the pairs |

## Left out

- Floating point: rounding, NaN and infinities; all arithmetic on `f32` and `f64` is exact.
- `Duration::from_secs_f64`: its nanosecond rounding and its panic on a negative number of seconds.
- CpuFreq.CpuFreqMonitor.Refresh: lists the id, online state, frequencies, limits, governor and path of a CPU; turbo, whose discovery never fails on Linux, the driver and the time stamp are not modelled.
- CpuFreq.CpuFreqMonitor.DiscoverCpu: leaves out drivers, hardware limits, available governors and frequencies, energy preferences and the contents of idle states, which are further fields read in the same way.
- CpuFreq.RefreshReadsBack: a file that accepts a write is taken to hold the written text, and only setters act between the write and the refresh.
- CpuSummary.SummaryIsOrdered: sufficient only, because an overflow can leave the order intact by chance; `CpuSummary.SummaryIsTrueIff` has the exact condition for the values being right.
- CpuSummary.DiscoveredSummaryIsOrdered: sufficient only, for the same reason.
- CpuSummary.SummaryIsTrueIff: for at most 2^64 / 1000 reporting cores, more than an address space holds.
- FanControl.FanMonitor.LinuxDiscoverFans: leaves out the fan type, which is guessed from the name in lower case, and the fields no Linux reader sets. A constructor whose discovery fails is not modelled.
- Csv.ColumnOrderIsIrrelevant: needs the names looked up to be unambiguous and rows to be full-width, as the first column of a repeated name wins and a short row loses its last columns.
- LegacyPaths.FileSystem.Adopt: users act between its three steps, not inside one; permission bits and symbolic links are left out, and a fault is one of: no directory made, some made, no copy, part of a copy.
- Messages, recommendation texts, `recommendations()`, the statistics getters and the unused disk latency threshold of the detector.
- `FanInfo` predicates, fan profiles as commands and thermal zones. A write goes to `pwm1` of the device directory whichever channel the fan is, as in the source, so nothing is claimed about only the named fan changing.
- cpufreq policies, turbo, the setters for one CPU, and `parse_boost_mode_ac`.
- The order in which a library sort compares: the sort by id is modelled as stable insertion.
- CPU, memory and network histories of the backend, which use the same buffer, and `processes_by_cpu`.
- Displayed address strings, the texts of errors, the process lookup behind a socket (an arbitrary function here), netstat and Windows tables. Address text is one character per byte, so slicing inside a multi-byte character is not modelled.
- `framework_names`, `names_match` and `detect_framework`: membership tests that would only add easy members.
- WMI, Win32, powercfg, sysctl, NVML and other foreign calls; configuration, consent, daemon, bandwidth, agent, TUI and GUI code.
