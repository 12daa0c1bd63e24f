# Runtime-metric names and the request counter of otel-grafana-stack

The otel-grafana-stack service publishes Go runtime metrics through
OpenTelemetry and serves one HTTP endpoint, `/`. This project models three
pieces of its `cmd/main.go` and proves their properties in Dafny.

- **`normalizeOtelName`** turns a runtime-metrics name such as
  `/gc/heap/allocs:bytes` into an instrument name such as
  `gc_heap_allocs_bytes`. It deletes the first `/`, turns every `:` into
  `_`, then every remaining `/` into `_`, and trims the white space at both
  ends. See `MetricNames.NormalizeOtelName`.
- **The label extraction of `getMetricsOptions`** splits the name at `/` and
  returns no options when there are fewer than two pieces. Otherwise it
  returns three attributes:
  - Namespace: the second `/`-piece;
  - Subsystem: supplied from outside;
  - Units: the second `:`-piece of the last `/`-piece.

  When that last piece holds no `:`, the Go code indexes out of range and
  panics. The model makes this an explicit `IndexOutOfRange` result. See
  `MetricNames.GetMetricsOptions`.
- **The `/` handler** increments the counter `i`. When the new `i` is a
  multiple of `5 + r` it adds one to `api.counter` under `outcome=failure`,
  and otherwise under `outcome=success`. Here `r` is a random draw from
  {0, 1}. See `ApiHandler.RequestCounter`. The draw is a parameter, and
  `api.counter` is modelled by its two per-outcome sums.

The Go `strings` functions these pieces rely on are in module `GoStrings`:
`Index`, `Count`, `Replace`, `ReplaceAll`, `TrimSpace` and `Split`. It also
holds a `Join`, used to state that `Split` loses nothing and to build
runtime-metrics names out of their segments.

Files:
- `go_strings.dfy`: module `GoStrings`.
- `metric_names.dfy`: module `MetricNames`.
- `api_handler.dfy`: module `ApiHandler`.

Strings are sequences of Unicode code points. White space is the full set
that Go's `unicode.IsSpace` accepts, which is what `strings.TrimSpace` trims.

## Model

| member | source | states |
|---|---|---|
| GoStrings.ReplaceFirst | otel-grafana-stack/cmd/main.go:189 | `strings.Replace(s, from, to, 1)`: without an occurrence of `from` the string is returned as it is; with one, the result loses one character and gains the length of `to` (which occurrence is rewritten is `ReplaceFirstAt`) |
| GoStrings.ReplaceFirstAt | otel-grafana-stack/cmd/main.go:189 | the occurrence `strings.Replace(..., 1)` rewrites is the first one, and everything before and after it is kept |
| GoStrings.FirstIndex | otel-grafana-stack/cmd/main.go:189 | the position `strings.Replace(..., 1)` rewrites is an occurrence of the pattern with none before it |
| GoStrings.ReplaceAll | otel-grafana-stack/cmd/main.go:190-191 | the result has the input's length; each position holds `to` where the input held `from`, and the input's character elsewhere |
| GoStrings.ReplaceAllAbsent | otel-grafana-stack/cmd/main.go:190-191 | replacing a character that does not occur changes nothing |
| GoStrings.ReplaceAllAppend | otel-grafana-stack/cmd/main.go:190-191 | replacing distributes over concatenation |
| GoStrings.ReplaceAllJoin | otel-grafana-stack/cmd/main.go:191 | replacing the separator of pieces joined by `from` gives the same pieces joined by `to` |
| GoStrings.IsSpace | otel-grafana-stack/cmd/main.go:191 | the `unicode.IsSpace` test `strings.TrimSpace` trims by; no letter, digit, `/`, `:` or `_` is white space |
| GoStrings.LeadingSpaces | otel-grafana-stack/cmd/main.go:191 | `TrimSpace`'s start: the input begins with exactly this many white-space characters |
| GoStrings.TrailingSpaces | otel-grafana-stack/cmd/main.go:191 | `TrimSpace`'s end: the input ends with exactly this many white-space characters |
| GoStrings.TrimSpace | otel-grafana-stack/cmd/main.go:191 | the result is the input with its leading white space removed, followed only by white space, and has no white space at either end |
| GoStrings.TrimSpaceUnchanged | otel-grafana-stack/cmd/main.go:191 | a string without edge white space is returned as it is |
| GoStrings.Count | otel-grafana-stack/cmd/main.go:170 | the number of separators is at most the length |
| GoStrings.CountZero | otel-grafana-stack/cmd/main.go:170 | no separators counted exactly when none occurs |
| GoStrings.Split | otel-grafana-stack/cmd/main.go:170 | `strings.Split` always returns at least one piece |
| GoStrings.SplitCount | otel-grafana-stack/cmd/main.go:170 | `n` separators give `n + 1` pieces, empty pieces kept |
| GoStrings.SplitSingle | otel-grafana-stack/cmd/main.go:170-173 | a split has a single piece exactly when the separator does not occur |
| GoStrings.SplitWhole | otel-grafana-stack/cmd/main.go:170-173 | without the separator, the single piece is the whole string |
| GoStrings.SplitPiecesFree | otel-grafana-stack/cmd/main.go:170 | no piece of a split holds the separator |
| GoStrings.JoinSplit | otel-grafana-stack/cmd/main.go:170 | joining the pieces of a split with the separator gives back the original string |
| GoStrings.SplitFirst | otel-grafana-stack/cmd/main.go:170 | the first piece is the run up to the first separator or the end |
| GoStrings.FirstFieldUnique | otel-grafana-stack/cmd/main.go:170 | that run is unique |
| GoStrings.FirstIndexAt | otel-grafana-stack/cmd/main.go:170 | an occurrence with none before it is the first index |
| GoStrings.SplitSecond | otel-grafana-stack/cmd/main.go:180-182 | with a separator present there are at least two pieces, and piece `[1]` is the run that follows the first separator |
| GoStrings.SplitLastIsLastField | otel-grafana-stack/cmd/main.go:175 | the last piece is the run that follows the last separator, or the whole string |
| GoStrings.SplitLast | otel-grafana-stack/cmd/main.go:175 | the last piece is `LastField`, read off from the end |
| GoStrings.LastField | otel-grafana-stack/cmd/main.go:175 | the last field is no longer than the string |
| GoStrings.LastFieldIsLastField | otel-grafana-stack/cmd/main.go:175 | `LastField` is the run that follows the last separator |
| GoStrings.LastFieldUnique | otel-grafana-stack/cmd/main.go:175 | that run is unique |
| GoStrings.LastFieldCons | otel-grafana-stack/cmd/main.go:175 | a last field survives a character put in front when it does not reach the start, or that character is the separator |
| GoStrings.LastFieldPrepend | otel-grafana-stack/cmd/main.go:175 | the same for a whole prefix |
| GoStrings.JoinLastField | otel-grafana-stack/cmd/main.go:175 | the last field of joined pieces plus a separator-free tail is the last piece plus that tail |
| MetricNames.NormalizeOtelName | otel-grafana-stack/cmd/main.go:188-193 | the normalized name holds no `/` and no `:`, has no white space at either end, is never longer than the input, and is strictly shorter when the input holds a `/` |
| MetricNames.NormalizeFixedPoint | otel-grafana-stack/cmd/main.go:188-193 | a name is returned unchanged if and only if it holds no `/`, no `:` and no edge white space |
| MetricNames.NormalizeIdempotent | otel-grafana-stack/cmd/main.go:188-193 | normalizing twice is normalizing once |
| MetricNames.NormalizeRuntimeName | otel-grafana-stack/cmd/main.go:188-193 | `/seg1/.../segN:unit`, with plain segments and unit, normalizes to `seg1_..._segN_unit` |
| MetricNames.NormalizeHeapAllocs | otel-grafana-stack/cmd/main.go:188-193 | `/gc/heap/allocs:bytes` normalizes to `gc_heap_allocs_bytes` |
| MetricNames.GetMetricsOptions | otel-grafana-stack/cmd/main.go:169-185 | no options exactly when the name holds no `/`; the index panic exactly when the name holds a `/` and its last `/`-piece holds no `:`; otherwise Namespace is the second `/`-field, Subsystem is the one passed in, and Units is the second `:`-field of the last `/`-field |
| MetricNames.RuntimeNameOptions | otel-grafana-stack/cmd/main.go:169-185 | for `/seg1/seg2/.../segN:unit` with at least two segments, the first `/`-piece is empty, Namespace is `seg1` and Units is `unit` |
| MetricNames.SingleSegmentOptions | otel-grafana-stack/cmd/main.go:169-185 | for a one-segment name `/seg:unit`, Namespace is the whole `seg:unit` (so `/sched:goroutines` gets Namespace `sched:goroutines`) and Units is `unit` |
| MetricNames.HeapAllocsOptions | otel-grafana-stack/cmd/main.go:170-182 | `/gc/heap/allocs:bytes` has an empty first piece, Namespace `gc` and Units `bytes` |
| ApiHandler.OutcomeOf | otel-grafana-stack/cmd/main.go:51-54 | the outcome of a request, failure on multiples of `5 + r`; whatever the draw, only multiples of 5 or 6 fail and multiples of 30 always fail |
| ApiHandler.Failures | otel-grafana-stack/cmd/main.go:50-56 | no more failures than requests |
| ApiHandler.OutcomeForEveryDraw | otel-grafana-stack/cmd/main.go:52-54 | counts that are multiples of neither 5 nor 6 succeed for both draws; multiples of 30 fail for both; a multiple of only one of them fails for the matching draw alone |
| ApiHandler.ConstantDrawFailures | otel-grafana-stack/cmd/main.go:50-54 | `n` requests that all draw `r` fail exactly `n / (5 + r)` times |
| ApiHandler.FailureBounds | otel-grafana-stack/cmd/main.go:50-54 | for any draws, `n` requests fail at least `n / 30` and at most `n / 5 + n / 6 - n / 30` times |
| ApiHandler.RequestCounter.constructor | otel-grafana-stack/cmd/main.go:46 | the counter starts at 0 and the instrument holds nothing |
| ApiHandler.RequestCounter.FailureSumBounds | otel-grafana-stack/cmd/main.go:50-56 | in every reachable state the failure sum of `api.counter` lies between `i / 30` and `i / 5 + i / 6 - i / 30` |
| ApiHandler.RequestCounter.Serve | otel-grafana-stack/cmd/main.go:50-56 | the counter goes up by exactly one. The outcome is a failure exactly when the new count is a multiple of `5 + r`, a divisor of at least 5. The instrument gains one under that outcome and nothing under the other. The invariant holds: there is one draw per request, the two sums add up to the counter, and the failures are `Failures` of the draws |

## Left out

- `signal-ctx-request/main.go` is not part of this model: it is all signal handling, goroutines, timers and server shutdown.
- `initOtel` is not modelled: environment lookups, URL parsing and OTLP exporter and meter-provider setup are foreign library calls.
- `getServiceInstanceID` is not modelled: it reads environment variables and the host name.
- `addBuiltInGoMetricsToOTEL` is not modelled: it registers observable counters and gauges with float-valued callbacks through the OpenTelemetry API. The names it passes through `normalizeOtelName` are modelled.
- `metadata.GetMetricSubsystemName` and `metadata.GetSingleMetricFloat` are not part of this model: they live in the app's `internal/metadata` package, which this model does not cover, so the subsystem is an uninterpreted `string` parameter of `GetMetricsOptions`.
- HTTP serving, the response text, logging, and the `panic` / `log.Fatal` paths are not modelled.
- `rand.Intn(2)` is not modelled: its result is the `draw` parameter of `Serve`.
- The `MeasurementOption` value is not modelled: `GetMetricsOptions` returns the three label values it would carry.
- RequestCounter.Serve: Go's `int` is 32 or 64 bits wide, depending on the platform, and `i++` would wrap after 2^31 - 1 or 2^63 - 1 requests. The counter is an unbounded integer, so that wrap-around is not modelled.
- RequestCounter.Serve: the handler runs concurrently for simultaneous requests, and `i++` there is an unsynchronised data race. The model serves requests one at a time.
- Go strings are byte sequences; here they are code-point sequences. Every pattern the code uses (`/`, `:`, `_`) is ASCII, so the operations agree on valid UTF-8. Invalid UTF-8 is not modelled.
