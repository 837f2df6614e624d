# Verified model of the image renderer's stateful core

This project models the parts of grafana-image-renderer that keep state, loop or interleave, and
proves what they promise over every input, every run and every interleaving. Check it with
`dafny verify dfyconfig.toml` (Dafny 4.11).

| file | what it models |
|---|---|
| `Readiness.dfy` | the polling loop of `waitForReady`, with its four variables, proved equal to a decision (`Verdict`) that keeps no state and only looks at what the page answered at each poll |
| `ReadinessRuns.dfy` | safety, two-run, liveness and hard-stop theorems about that loop |
| `NetworkObserver.dfy` | `readinessNetworkObserver` as interleaved steps of any number of threads, and as a class whose calls run one at a time |
| `ReadinessNetwork.dfy` | what readiness means for the requests in flight |
| `RateLimiter.dfy`, `RateLimiterBound.dfy` | `processBasedLimiter` as interleaved steps of any number of requests, the admission bound, and a run that attains it |
| `Threads.dfy` | counting threads by program point |
| `FlagText.dfy` | cutting a text at the positions where flags start, and joining the pieces again |
| `BrowserFlags.dfy`, `OverrideFlags.dfy` | the two flag scanners, as loops, against their meaning by positions |
| `RequestConfigs.dfy`, `RenderingOptions.dfy` | per-request settings and rendering options, as values |
| `BrowserConfigs.dfy` | `BrowserConfig` on the heap: slices, maps and arrays that struct copies share |
| `Overrides.dfy` | per-URL overrides, built by writing flags out and parsing them again |
| `ProcessStats.dfy` | the memory tracker, in 64-bit integers with truncated division |
| `Arithmetic.dfy` | minimum, maximum and one product rule, shared by the others |

## How to read it

One iteration of the polling loop observes a `Poll`: why it woke up, the in-flight counter, up to
four clock readings, and the page's answers. The answers are arbitrary; the clock is monotonic
(`Ordered`). `StopsAt(c, polls, i, o)` says that the loop ends at poll `i` with outcome `o`.

The two concurrent protocols are state machines. A schedule is any sequence of thread choices,
choices that are not enabled being passed over, so a statement about every schedule is one about
every reachable state. The atomic counter of the limiter wraps at 2^32.

Strings are sequences of code points with the white space of Go's `unicode.IsSpace`. The scanners
compare bytes with ASCII characters only, so cutting bytes and cutting code points agree.

## Where the code differs from its own description

- `reconstructFlags` says that it writes out defaults too; it skips every flag that was not set
  (pkg/config/flags.go:22-24). The resulting settings are the same, since defaults apply again.
- A minimum memory per browser of 0 is described as disabling the minimum (pkg/config/config.go:970);
  the slot computation divides by it. `PanicsExactlyWithoutMinimumMemory` says exactly when.
- Memory slots are truncated to 32 bits before they are compared
  (pkg/api/middleware/ratelimiter.go:114). `SlotTestExactUnlessTruncated` says exactly when that matters.
- N readiness checks are described as having to pass consecutively (pkg/config/config.go:457). Polls held
  back by the network gate do not start the count again; `ConsecutiveChecksUnlessNetworkBlocked` gives the
  exact condition and `ChecksNeedNotBeConsecutive` a run.
- `DeepClone` writes its cookie copies into the array it shares with the original
  (pkg/config/config.go:476-479). A request served alone always ends in the right settings and leaves the
  service's as they were (`PrepareRequest`). Requests keep out of each other's settings, whatever their
  options, when the service's cookies leave no spare room in that array (`ServeRequests`), as with the nil
  slice of every configuration that is built (pkg/config/config.go:838). With spare room they do not: the
  cookie of a second request replaces that of the first (`ClonesShareCookies`).
- A configuration-file list whose last flag ends in a comma loses that comma
  (pkg/config/flags.go:130-132). `BrowserFlags.RoundTripsExactlyWhenWellFormed` is the exact round-trip condition.

## Model

| member | source | states |
|---|---|---|
| Readiness.WaitForReady | pkg/service/browser.go:1130-1214 | the loop with its four variables stops exactly where the stateless decision first is not to wait, with that outcome: ready, context ended, timed out, or the error of the page evaluation |
| Readiness.GatesAre | pkg/service/browser.go:1150-1181 | when each of the three gates is active, in the fields of the configuration and the poll |
| Readiness.QueryGate | pkg/service/browser.go:1158-1179 | the query gate passes exactly when the last N evaluations, this one included, were settled, and otherwise leaves its two variables in step with the history |
| Readiness.DOMGate | pkg/service/browser.go:1181-1209 | the DOM gate alternates between recording and comparing over a row of successive polls that reach it, and passes exactly when it compares with an equal hash of the poll before |
| Readiness.QueryGateStaysPassed | pkg/service/browser.go:1158-1193 | once a poll reached the DOM gate, the next one passes the query gate too unless the network or a running query intervenes; this needs the monotonic clock |
| Readiness.NoStreakBeforeFirstQuery | pkg/service/browser.go:1171-1173 | no evaluation counts while the first query is still waited for |
| ReadinessRuns.OutcomesMean | pkg/service/browser.go:1136-1212 | which wake-up, failed evaluation and active gate each outcome of the loop stands for, and that ready is never reported at a poll that the network gate holds back |
| ReadinessRuns.UnsatisfiedGateWaits | pkg/service/browser.go:1149-1194 | an active network gate with requests in flight, an active query gate with a query running, and a first look at the DOM each make the loop wait |
| ReadinessRuns.ReadyOnStableDOM | pkg/service/browser.go:1181-1209 | ready with the DOM gate active: the hash compared was recorded on the poll just before, both hashes are equal, and at neither poll was an active network or query gate unsatisfied |
| ReadinessRuns.EvaluationsAre | pkg/service/browser.go:1158-1166 | the evaluations counted are, in order, exactly the polls that the network gate let through while the query gate watched |
| ReadinessRuns.StreakIsLastEvaluations | pkg/service/browser.go:1166-1178 | the success counter is at least k exactly when the last k evaluations exist and were all settled, polls without an evaluation not counted |
| ReadinessRuns.ReadyAfterQuietQueries | pkg/service/browser.go:1158-1179 | ready with the query gate active: the last N checks found nothing running, the polls between them are exactly those with blocking requests in flight, and a query was seen before or the positive first-query give-up has passed |
| ReadinessRuns.ConsecutiveChecksUnlessNetworkBlocked | pkg/config/config.go:457-458 | the last N polls before ready are all passing checks, as described, if and only if the network gate blocked none of them |
| ReadinessRuns.ChecksNeedNotBeConsecutive | pkg/service/browser.go:1150-1156 | a run in which they are not |
| ReadinessRuns.LessDOMWatchingIsNeverLater | pkg/service/browser.go:1181-1182 | on the same page, disabling the DOM wait or giving it up sooner never makes the loop ready later |
| ReadinessRuns.QuietPollProgress | pkg/service/browser.go:1149-1211 | every poll in which no gate that still watches sees the page move, once a watching query gate has seen a query or given up on the first, ends the loop or lowers the measure of missing cycles and DOM phase |
| ReadinessRuns.QuietPageBecomesReady | pkg/service/browser.go:1136-1212 | from any point a run can reach, such a page becomes ready within N + 1 polls, or three if N is at most one; a gate that is disabled or has given up asks nothing of the page |
| ReadinessRuns.GiveUpsBoundTheLoop | pkg/service/browser.go:1136-1209 | if every enabled gate gives up, the loop ends within max(1, ceil(M / interval)) polls whatever the page reports |
| ReadinessNetwork.ReadyMeansNetworkIdle | pkg/service/browser.go:1149-1156 | ready under the network gate: when the counter was read, the only outstanding requests were those whose send had not returned |
| NetworkObserver.TrackedExactly | pkg/service/browser.go:1307-1318 | a request counts if and only if it has a payload, is neither an event source nor a web socket, and its url begins with "http://" or "https://", letter by letter in either case |
| NetworkObserver.CallSendTracks | pkg/service/browser.go:1273-1276 | a send takes part in the protocol exactly for such requests |
| NetworkObserver.CallsEnd | pkg/service/browser.go:1273-1301 | every step of a call brings it nearer to its return, for the same id, and moves no other call |
| NetworkObserver.OutstandingAfter | pkg/service/browser.go:1283-1297 | one more send or completion changes which ids have a send without a later completion |
| NetworkObserver.StepKeepsInv | pkg/service/browser.go:1273-1301 | every step of every thread keeps: one lock holder, counter = map size + deletions not yet uncounted - insertion not yet counted, map = outstanding ids |
| NetworkObserver.ReachableInv | pkg/service/browser.go:1261-1305 | so does every interleaving |
| NetworkObserver.CounterNeverUnderReports | pkg/service/browser.go:1273-1305 | in every reachable state the counter is not negative, counts every outstanding id whose send has returned, and exceeds the map by no more than the completions under way |
| NetworkObserver.CounterExactAtRest | pkg/service/browser.go:1281-1300 | with no call in progress the counter is the number of ids with a tracked send and no later completion, whatever duplicates there were |
| NetworkObserver.SendReportsNewIds | pkg/service/browser.go:1283-1288 | a send takes the inserting branch exactly when the id was not outstanding |
| NetworkObserver.SomeCallCanAdvance | pkg/service/browser.go:1278-1298 | no deadlock: while a call is in progress some call can take a step |
| NetworkObserver.CounterCanLagTheMap | pkg/service/browser.go:1286-1287 | a reader between the map write and the increment sees one less than the map |
| NetworkObserver.ReadinessNetworkObserver.OnRequestWillBeSent | pkg/service/browser.go:1273-1289 | alone, a send that counts, of an id that was not outstanding, adds one and reports true; anything else changes nothing and reports false |
| NetworkObserver.ReadinessNetworkObserver.OnRequestCompleted | pkg/service/browser.go:1291-1301 | alone, a completion takes off one exactly when the id was outstanding |
| NetworkObserver.ReadinessNetworkObserver.Inflight | pkg/service/browser.go:1303-1305 | alone, the counter is the number of outstanding ids |
| RateLimiter.AdmittedExactlyBelowLimit | pkg/api/middleware/ratelimiter.go:91-135 | a request can be admitted, under some free memory, if and only if it loaded a counter below max(MinLimit, min(MaxLimit if set, slots if memory is known)) |
| RateLimiter.AdmittedWithinMemory | pkg/api/middleware/ratelimiter.go:91-117 | whoever is admitted beyond the minimum, with total memory known, leaves each browser its minimum memory out of all memory and out of the configured cap, and is below the maximum |
| RateLimiter.RoomIsAdmitted | pkg/api/middleware/ratelimiter.go:91-135 | and whoever has that room, with slots below 2^32, finds a slot, and is admitted if free memory is unknown |
| RateLimiter.MinimumIsAdmitted | pkg/api/middleware/ratelimiter.go:92-93 | the guaranteed minimum is admitted whatever memory there is |
| RateLimiter.FreeMemoryDecides | pkg/api/middleware/ratelimiter.go:121-135 | beyond the minimum, free memory decides exactly by whether it is unknown or covers headroom and the larger of minimum and peak |
| RateLimiter.NegativePeakIsHuge | pkg/api/middleware/ratelimiter.go:123 | a negative peak is read as an unsigned number: beyond the minimum it refuses everyone while known free memory is less than headroom plus 2^63 |
| RateLimiter.RefusedForAReason | pkg/api/middleware/ratelimiter.go:92-135 | the reason given for a decision is so |
| RateLimiter.PanicsExactlyWithoutMinimumMemory | pkg/api/middleware/ratelimiter.go:109-110 | the division by zero, exactly |
| RateLimiter.SlotTestExactUnlessTruncated | pkg/api/middleware/ratelimiter.go:110-116 | the coded slot test agrees with the documented one on every counter if and only if the slots fit in 32 bits |
| RateLimiter.TruncationRefusesAll | pkg/api/middleware/ratelimiter.go:114-116 | a machine on which it does not |
| RateLimiter.RequestsMoveForward | pkg/api/middleware/ratelimiter.go:47-76 | every step takes its request forward and no other: a request loads once, and is gone for good once refused or served |
| RateLimiter.DecisionIsFinal | pkg/api/middleware/ratelimiter.go:53-66 | a request goes on to be served exactly when the counter it loaded fits the memory then found |
| RateLimiter.CounterIsServing | pkg/api/middleware/ratelimiter.go:66-76 | in every interleaving the counter is the number of requests between add and deferred decrement, modulo 2^32 |
| RateLimiter.DecrementNeverWraps | pkg/api/middleware/ratelimiter.go:68-73 | adding 2^32 - 1 is a plain decrement of a positive counter |
| RateLimiter.AdmissionBound | pkg/api/middleware/ratelimiter.go:47-136 | if at most k requests are between load and add at once, no interleaving serves more than limit + k - 1 |
| RateLimiterBound.AdmissionBoundAttained | pkg/api/middleware/ratelimiter.go:53-73 | for every limit and k some run serves exactly that many |
| BrowserFlags.CustomParseBrowserFlags | pkg/config/flags.go:109-139 | the nested loops return one cleaned piece per position of "--", in order, in at most two inner steps per character |
| BrowserFlags.NextFlag | pkg/config/flags.go:116-125 | the inner loop finds the nearest later "--" or the end |
| BrowserFlags.CutFlag | pkg/config/flags.go:127-134 | the piece is trimmed after at most one adjoining comma was dropped |
| BrowserFlags.PiecesCoverTheText | pkg/config/flags.go:114-136 | nothing is lost: one non-empty piece starting with "-" per "--", at its position, and up to the next "--" only spaces and at most one adjoining comma are left out |
| BrowserFlags.NoFlagInsidePiece | pkg/config/flags.go:119-125 | no piece holds a "--" after its beginning |
| BrowserFlags.RoundTripsExactlyWhenWellFormed | pkg/config/flags.go:109-139 | a list joined by "," or by " " parses back to itself if and only if each flag begins with "--", has no other "--" and no trailing space, and the last does not end in a comma |
| BrowserFlags.TrailingCommaIsLost | pkg/config/flags.go:130-132 | a flag that ends in a comma, alone, does not come back |
| OverrideFlags.ParseOverrideFlags | pkg/config/flags.go:62-104 | the loop with its builder returns one trimmed piece per dash at a boundary; the builder is non-empty exactly when a flag was seen |
| OverrideFlags.ParsedFlagsAreWellFormed | pkg/config/flags.go:75-101 | every flag returned begins with a dash, is trimmed, and has no dash after a space or tab inside |
| OverrideFlags.RoundTripsExactlyWhenWellFormed | pkg/config/flags.go:62-104 | a list joined by spaces parses back to itself if and only if every flag is of that form |
| OverrideFlags.ParsingIsIdempotent | pkg/config/flags.go:62-104 | for every input, parsing the joined output gives the output again |
| FlagText.TrimSpaceIs | pkg/config/flags.go:63 | trimming takes exactly the spaces off both ends |
| FlagText.SpacesAre | pkg/config/flags.go:63 | the 25 characters that count as spaces |
| RenderingOptions.LookupFindsFirst | pkg/config/config.go:487-498 | lookup yields the settings of the first matching override, and without a match the default |
| RenderingOptions.LookupCommutesWithOptions | pkg/config/config.go:487-507 | looking up a URL after applying any accepted options equals applying them to the settings looked up first |
| RenderingOptions.OptionsKeepPatterns | pkg/config/config.go:501-507 | options keep the patterns, their number and order |
| RenderingOptions.AcceptedExactlyWhenNoneRejected | pkg/service/browser.go:263-269 | the fold fails exactly when some option is rejected |
| RenderingOptions.RejectedExactly | pkg/service/browser.go:128-218 | rejected are a missing or unnamed time zone, a header without name and a scale that is not positive |
| RenderingOptions.CookiesAreAppended | pkg/service/browser.go:154-160 | cookies end up behind those of the service, in order |
| RenderingOptions.LastTimeZoneWins | pkg/service/browser.go:137 | the last time zone is used |
| RenderingOptions.TimeZoneStays | pkg/service/browser.go:128-139 | without a time zone option the service's is used |
| RenderingOptions.LastHeaderWins | pkg/service/browser.go:173-176 | of several values for a header name the last is sent |
| RenderingOptions.HeaderStays | pkg/service/browser.go:168-178 | headers that no option names stay |
| RenderingOptions.NoHeaderNoMap | pkg/service/browser.go:173-175 | the header map is only made or changed for header options |
| RenderingOptions.OptionsTouchTheirFieldsOnly | pkg/service/browser.go:186-250 | no option changes a setting other than viewport, scale, orientation and polling mode |
| RenderingOptions.UnaskedViewportStays | pkg/service/browser.go:198-205 | a side of the viewport stays unless an option asks for it |
| RenderingOptions.UnaskedScaleStays | pkg/service/browser.go:214-229 | the scale stays without a scale option |
| RenderingOptions.UnaskedOrientationStays | pkg/service/browser.go:232-240 | the orientation stays without an orientation option |
| RenderingOptions.UnaskedPollingStays | pkg/service/browser.go:242-250 | the polling mode stays without a polling option |
| RenderingOptions.OptionsKeepValidity | pkg/service/browser.go:186-250 | no options make validated settings invalid, shrink the viewport or touch the maxima |
| RenderingOptions.ViewportIsLargestRequest | pkg/service/browser.go:186-209 | each side of the final viewport is the largest size requested for it, clamped; -1 requests nothing |
| RenderingOptions.ViewportIgnoresOrder | pkg/service/browser.go:186-209 | order and repetition of size requests make no difference |
| RenderingOptions.ViewportForUrl | pkg/service/browser.go:262-304 | the same for the settings that the URL of the request selects |
| RenderingOptions.LastOptionOfAKindWins | pkg/service/browser.go:214-250 | the last scale, orientation or polling option decides, the scale capped by its maximum |
| RenderingOptions.ViewportOptions | pkg/api/render.go:62-85 | the handler asks for the given sizes only; a full-page image without height asks for three quarters of its width |
| RenderingOptions.ScrollHeightIs | pkg/api/render.go:203-207 | that height is three quarters of the width, rounded down |
| RenderingOptions.MissingWidthStaysMissing | pkg/api/render.go:203-207 | that height is the "not requested" value exactly when the width is |
| BrowserConfigs.BrowserConfig.CopyOf | pkg/service/browser.go:127-128 | passing a configuration by value shares everything behind references |
| BrowserConfigs.BrowserConfig.DeepClone | pkg/config/config.go:474-483 | same value, own headers and overrides, cookies still shared; the original's value is unchanged |
| BrowserConfigs.RefreshCookies | pkg/config/config.go:476-479 | the cookie loop replaces every pointer in the given array by a fresh one of equal content |
| BrowserConfigs.BrowserConfig.ApplyAll | pkg/config/config.go:501-507 | the default and every override, in place and each once |
| BrowserConfigs.BrowserConfig.LookupRequestConfig | pkg/config/config.go:487-498 | the default if no pattern matches; otherwise the settings of the matching override that no earlier one precedes |
| BrowserConfigs.ApplyOption | pkg/service/browser.go:127-250 | an option fails exactly when it is rejected, and otherwise yields a configuration with the option's effect that refers to what its argument refers to or to new memory; either way it writes only the argument's overrides, headers and spare cookie room |
| BrowserConfigs.Append | pkg/service/browser.go:154-158 | appending a cookie writes into spare room of the shared array, or moves to a new one |
| BrowserConfigs.PrepareRequest | pkg/service/browser.go:262-269 | whatever the service's cookies, a request ends in the service's settings with its own options, and the service keeps its settings even when an option fails midway; nothing that existed is written but the array of the service's cookies |
| BrowserConfigs.ServeRequests | pkg/service/browser.go:252-270 | with no spare room behind the service's cookies, each of any number of requests with any options gets, and keeps while later ones are served, the settings that depend on the service and its own options alone |
| BrowserConfigs.ClonesShareCookies | pkg/config/config.go:475-479 | with spare room a second request's cookie replaces the first's; of two requests with one cookie each, exactly then |
| Overrides.ReconstructFlagValue | pkg/config/flags.go:39-58 | nested lists are flattened in order |
| Overrides.TextsKeepOrder | pkg/config/flags.go:44-52 | the texts of a list are those of its items, in order |
| Overrides.ReconstructFlags | pkg/config/flags.go:14-35 | set flags, in order, one argument per text; an unnamed flag is an error |
| Overrides.ArgumentRoundTrips | pkg/config/flags.go:31 | an argument written out names the same flag and text when read, whatever the text |
| Overrides.OtherForms | pkg/config/flags.go:62-104 | an override may write one dash, and a flag without value means true |
| Overrides.ReconstructedKeepsFlag | pkg/config/flags.go:16-33 | read again, a scalar flag has its own text if set and is left to its default if not |
| Overrides.BaseTextOfFlag | pkg/config/flags.go:16-33 | the base text of a scalar flag is its own if set and its default if not |
| Overrides.MergedTextIsBaseUpdated | pkg/config/config.go:901-927 | a flag the override does not name keeps its base text, set or defaulted; of a named one its last text counts |
| Overrides.FieldsReadExactly | pkg/config/config.go:757-797 | which flag, by its name, each of the twenty settings is read from and as what type, the orientation negated |
| Overrides.OverrideIsBaseUpdated | pkg/config/config.go:899-921 | each of the twenty settings of an override is read from the last own text of its flag, named in full, or from the base text if the override does not name it |
| Overrides.UnnamedViewportSettingsKeepBase | pkg/config/config.go:757-797 | a viewport or scale setting whose flag the override does not name is that of the base |
| Overrides.UnnamedPageSettingsKeepBase | pkg/config/config.go:757-797 | the same for scrolling, orientation and polling |
| Overrides.UnnamedQuerySettingsKeepBase | pkg/config/config.go:757-797 | the same for the query gate |
| Overrides.UnnamedIdleSettingsKeepBase | pkg/config/config.go:757-797 | the same for the network and DOM gates |
| Overrides.UnnamedWaitsSettingsKeepBase | pkg/config/config.go:757-797 | the same for the waits |
| Overrides.BuildConfigIs | pkg/config/config.go:899-928 | parsing succeeds exactly when all base and own flags are accepted and those settings pass the checks between minima and maxima, and yields them |
| Overrides.BuiltConfigIsValid | pkg/config/config.go:757-797 | with the flag validators, every configuration built is valid in the sense that options preserve |
| Overrides.OverrideIsMergedExactly | pkg/config/config.go:863-893 | an override is built if and only if its text is a pattern, the first "=" and flags, the trimmed pattern is not empty and compiles, and the base settings updated by the flags pass every check; the result is that pattern with those settings |
| Overrides.NoSeparatorExactly | pkg/config/config.go:864-867 | an override is rejected for its missing "=" exactly when it has none |
| Overrides.OverrideErrorIs | pkg/config/config.go:868-890 | any other error names what is wrong with the pattern, the flags or the ranges |
| Overrides.MergedOverrideIsValid | pkg/config/config.go:664-711 | with the flag validators, those settings are valid in the sense that options preserve |
| Overrides.BuildRequestConfigOverrides | pkg/config/config.go:849-897 | succeeds exactly when every override means a configuration in that sense, with those configurations in order; fails with the first error otherwise |
| ProcessStats.ProcessStatService.TrackProcess | pkg/service/process.go:87-128 | the peak is the largest sample or zero, and both statistics get one update with it |
| ProcessStats.QuotientTruncates | pkg/service/process.go:108 | division truncates toward zero |
| ProcessStats.WrapIs | pkg/service/process.go:108 | results wrap around to the int64 of the same residue |
| ProcessStats.AverageMovesByFloor | pkg/service/process.go:105-109 | in range, an update moves the average by the floor of the N-th part of the gap, despite truncation |
| ProcessStats.OverflowBoundIsExact | pkg/service/process.go:108 | updates of values up to b cannot overflow if and only if b is at most (2^63 - 1) / N |
| ProcessStats.AverageStaysInRange | pkg/service/process.go:99-110 | in any order of processes the average lies between the smallest and largest peak and never above the maximum |
| ProcessStats.NothingOverflows | pkg/service/process.go:108 | when every peak is at most (2^63 - 1) / N, no product and no sum formed anywhere in the run leaves 63 bits |
| ProcessStats.MaximumIsLargest | pkg/service/process.go:110 | the maximum is the largest peak |
| ProcessStats.MaximumIgnoresOrder | pkg/service/process.go:110 | so the order of lock acquisition makes no difference to it |
| ProcessStats.StepFromAbove | pkg/service/process.go:108 | from above the average strictly falls, not below the sample, leaving the floor of gap (N-1)/N |
| ProcessStats.StepFromBelow | pkg/service/process.go:108 | from below it never falls or overshoots, leaves the ceiling of gap (N-1)/N, and stands still exactly within N - 1 of the sample |
| ProcessStats.ConvergesFromAbove | pkg/service/process.go:105-109 | under equal samples it reaches them exactly, within as many steps as the gap, and stays |
| ProcessStats.ConvergesFromBelow | pkg/service/process.go:105-109 | from a non-zero value below it stops within N - 1 of the sample |
| ProcessStats.RecursiveMemory | pkg/service/process.go:136-149 | the 64-bit sum over the processes that are readable and have only readable ancestors |
| ProcessStats.CountedExactly | pkg/service/process.go:137-147 | a process is counted if and only if it and all its ancestors can be read |
| ProcessStats.CountedOnce | pkg/service/process.go:144-147 | no process is counted twice |
| ProcessStats.CountedAreBytes | pkg/service/process.go:142-148 | what is summed is the resident set of the processes counted |

## Left out

- RateLimiter.AdmissionBound: total memory is the same at every probe; a machine whose memory changes while requests are in the window is not modelled.
- RateLimiter.AdmittedExactlyBelowLimit: free memory and the tracked peak are arbitrary inputs of each decision; what a browser then uses is not modelled.
- NetworkObserver.CounterNeverUnderReports: the 64-bit width of the counter is not modelled; it is bounded by the number of threads and ids.
- NetworkObserver.SendReportsNewIds: lower-casing in `shouldTrackReadinessNetworkRequest` is modelled for ASCII, which decides the two prefixes it looks for.
- Overrides.ArgumentRoundTrips: of the command-line library only this is assumed: arguments are read from left to right, the last value of a flag wins, one or two leading dashes are dropped, and a flag without "=" reads as true.
- Overrides.ReconstructedKeepsFlag: flags that hold lists are written out and read, but their accumulated value is not, since no setting of a request is a list.
- Overrides.OverrideIsBaseUpdated: the typed reading of a flag's text, regular-expression compilation and matching are parameters.
- RenderingOptions.ViewportOptions: products of sizes are computed in the reals, which agrees with floating point for every width below 2^53; scale factors are reals, without infinities or NaN.
- BrowserConfigs.ClonesShareCookies: shows the interference for one cookie each; what longer lists leave behind in a shared array with room is not worked out, since no configuration is built with such an array.
- BrowserConfigs.ApplyOption: the IPv6 brackets that `WithCookie` puts around a domain, and the fields of `BrowserConfig` that no option touches, are not part of this model.
- Readiness.WaitForReady: binding mode is one wait for one event and is not modelled; the answers of the page, the wake-up of each iteration and the clock are inputs.
- ProcessStats.ProcessStatService.TrackProcess: the samples are inputs, and an update under the mutex is one step.
- Browser control, page scripts, PDF, PNG and CSV capture, HTTP handlers, authentication, sandboxing, tracing, metrics and logging.
