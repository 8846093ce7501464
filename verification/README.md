# Incremental aggregation data purging — Dafny model

An incremental aggregation in Siddhi keeps one table of pre-aggregated rows per
time granularity (seconds, minutes, hours, days, months, years).
`IncrementalDataPurging` keeps those tables bounded. It does two things:

1. At aggregation setup (`init`), it resolves a purge policy. It starts from a
   default retention for each aggregated granularity. It then reads the
   optional `@purge` annotation: an `enable` flag that must be `true` or
   `false` ignoring case, an `interval` that replaces the 15-minute default, and
   the elements of the first `@retention` sub-annotation. Each element either
   keeps a granularity forever (`all`) or sets its retention to a duration. A
   granularity that has no table is rejected.
2. On every tick (`run`), it walks the table map in order. For each table whose
   retention is not "retain all", it builds the predicate
   `table.AGG_TIMESTAMP < AGG_TIMESTAMP`, binds the right side to the cutoff
   `now - retention`, and asks the table to compile the predicate and delete
   the matching rows. The first failure raises a purge error naming the table,
   and the rest of that tick is skipped.

Files:

- `wrappers.dfy`: `Option` and `Result`.
- `text.dfy`: ASCII case-insensitive string equality.
- `durations.dfy`: `Granularity`, the time units in milliseconds, and
  `Retention` (`RetainAll | Keep(ms)`) with the source's `-1` sentinel encoding.
  The tick tests the encoded value, as the source does.
- `policy.dfy`: policy resolution (`Init`), plus lemmas about defaults, the
  `enable` flag, and how overrides behave.
- `tick.dfy`: the tick (`Run`), its reference function `Eligible`, and the
  shared-batch finding.

Inputs the model takes as parameters:

- The clock reading of a tick is the parameter `now`.
- The duration-literal parser `timeToLong` is the function parameter `timeToLong`.
- Retention keys arrive already normalised to a `Granularity`.
- The table's condition compiler and delete call are the oracle
  `outcome: Request -> Outcome`. An outcome is `Done`, `Failed(CompileFailed)` or
  `Failed(DeleteFailed)`.

In these places the model follows the code exactly:

- The code does not require a retention value to be positive. Any parsed
  duration is accepted.
- Only the first `@retention` sub-annotation is read.
- The tick's skip test compares the stored long with the `-1` sentinel. On
  OpenJDK, boxing -1 yields the cached `Long` object the sentinel also holds,
  so a parsed retention of exactly -1 ms is skipped like "retain all".

`Run` records each request with its own cutoff. What a delete call actually
receives is modelled separately, in `BatchAsWritten` and `RowsLeft`. The code
appends every request's parameter row to one instance field that is never
cleared, and passes that whole chunk to each delete (see Findings).

## Model

| member | source | states |
|---|---|---|
| Policy.Init | modules/siddhi-core/src/main/java/org/wso2/siddhi/core/aggregation/IncrementalDataPurging.java:78-154 | A resolved policy has a retention for exactly the aggregated granularities. Setup fails with an undefined-enable error, naming the value, exactly when `enable` is present and is neither true nor false ignoring case. Otherwise `IsPurgingEnabled` holds exactly when there is no annotation, no `enable`, or `enable` reads true ignoring case. A disabled policy has the 15-minute interval and the default retentions. |
| Policy.ApplyRetention | modules/siddhi-core/src/main/java/org/wso2/siddhi/core/aggregation/IncrementalDataPurging.java:135-151 | Applying retention elements succeeds exactly when every element names an aggregated granularity. On success the map's domain only gains the named keys. On failure the error names the first element whose granularity is not aggregated. |
| Policy.DefaultRetention | modules/siddhi-core/src/main/java/org/wso2/siddhi/core/aggregation/IncrementalDataPurging.java:90-110 | A granularity's default is retain-all exactly for months and years, and every other default is a positive window. The exact values are stated by DefaultsStand. |
| Policy.DefaultsStand | modules/siddhi-core/src/main/java/org/wso2/siddhi/core/aggregation/IncrementalDataPurging.java:62-110 | With no purge annotation or an empty one, purging is enabled every 900000 ms. The defaults are seconds 30 s, minutes 24 h, hours 30 d, days 5 years, and retain-all for months and years, one entry per aggregated granularity. |
| Policy.EnableLiterals | modules/siddhi-core/src/main/java/org/wso2/siddhi/core/aggregation/IncrementalDataPurging.java:120-128 | `TRUE` enables purging, `false` disables it, and `maybe` fails setup. |
| Policy.DisabledIsInert | modules/siddhi-core/src/main/java/org/wso2/siddhi/core/aggregation/IncrementalDataPurging.java:129-152 | When `enable` reads false, the result is disabled with the default interval and default retentions. This holds whatever interval or retention elements are present, and none of them can fail. |
| Policy.ElementRetention | modules/siddhi-core/src/main/java/org/wso2/siddhi/core/aggregation/IncrementalDataPurging.java:145-149 | The long stored for an element is the -1 sentinel when its value is `all` ignoring case, and otherwise what `timeToLong` gives for the value. So the tick's test at line 173 purges that granularity exactly when the value is not `all` and does not parse to -1. RetentionOverride states how these values combine across elements. |
| Policy.RetentionOverride | modules/siddhi-core/src/main/java/org/wso2/siddhi/core/aggregation/IncrementalDataPurging.java:139-150 | Later elements overwrite earlier ones. Each granularity ends with the value of the last element naming it (`all` ignoring case means retain-all, anything else the parsed duration), or keeps its starting value if no element names it. |
| Policy.LastForCons | modules/siddhi-core/src/main/java/org/wso2/siddhi/core/aggregation/IncrementalDataPurging.java:139-150 | Finding the last element for a granularity from the back agrees with the front-to-back order in which the loop overwrites. |
| Policy.EnabledOverrides | modules/siddhi-core/src/main/java/org/wso2/siddhi/core/aggregation/IncrementalDataPurging.java:129-151 | When enabled, the interval is the parsed `interval` element or 15 minutes. Each aggregated granularity's retention is the last value the first retention sub-annotation gives it, or else its default. |
| Policy.UnknownGranularityRejected | modules/siddhi-core/src/main/java/org/wso2/siddhi/core/aggregation/IncrementalDataPurging.java:139-144 | When enabled, setup fails with a not-aggregated error naming `g` exactly when `g` is not aggregated and is the key of the first element of the first retention sub-annotation that names a non-aggregated granularity. |
| Policy.OnlyFirstRetentionConsulted | modules/siddhi-core/src/main/java/org/wso2/siddhi/core/aggregation/IncrementalDataPurging.java:135-138 | Retention sub-annotations after the first have no effect on the result. |
| Policy.OneMinuteSevenDays | modules/siddhi-core/src/main/java/org/wso2/siddhi/core/aggregation/IncrementalDataPurging.java:90-150 | Worked example: seconds and hours aggregated, enable true, interval "1 min", hours "7 d". The result is interval 60000 ms, seconds 30000 ms (default) and hours 604800000 ms. |
| Durations.SentinelRoundTrip | modules/siddhi-core/src/main/java/org/wso2/siddhi/core/aggregation/IncrementalDataPurging.java:71 | Encoding a retention as a long with -1 for retain-all loses nothing except a retention of exactly -1 ms, which reads back as retain-all. |
| Durations.Purgeable | modules/siddhi-core/src/main/java/org/wso2/siddhi/core/aggregation/IncrementalDataPurging.java:173 | The loop's test on the stored long holds exactly for a `Keep` of anything but -1 ms. PurgeableMeansFiniteWindow relates it to the sentinel round trip. |
| Durations.PurgeableMeansFiniteWindow | modules/siddhi-core/src/main/java/org/wso2/siddhi/core/aggregation/IncrementalDataPurging.java:71-173 | The loop's test (the stored long differs from the -1 sentinel) holds exactly when the retention survives the sentinel round trip as a finite window. When it holds, the decoded window is the retention itself. |
| Tick.Eligible | modules/siddhi-core/src/main/java/org/wso2/siddhi/core/aggregation/IncrementalDataPurging.java:172-181 | A failure-free tick builds no more requests than there are tables. Which requests they are, and in what order, is stated by EligibleSound, EligibleComplete and EligibleAppend. |
| Tick.EligibleSound | modules/siddhi-core/src/main/java/org/wso2/siddhi/core/aggregation/IncrementalDataPurging.java:172-181 | The k-th request of a failure-free tick is the one built for table `Sources[k]`, and those positions strictly increase, so there is at most one request per table and they come in table order. Each request's table has a stored retention that differs from the sentinel, its cutoff is `now` minus that retention, and its predicate compares the table's `AGG_TIMESTAMP` with the unqualified parameter attribute. |
| Tick.EligibleAppend | modules/siddhi-core/src/main/java/org/wso2/siddhi/core/aggregation/IncrementalDataPurging.java:172 | Requests follow table order: the requests for a concatenation of entries are those of the first part followed by those of the second. |
| Tick.EligibleComplete | modules/siddhi-core/src/main/java/org/wso2/siddhi/core/aggregation/IncrementalDataPurging.java:172-178 | Every table whose stored retention differs from the -1 sentinel gets its request, carrying its own id, granularity and cutoff. |
| Tick.EligibleSkipsRetainAll | modules/siddhi-core/src/main/java/org/wso2/siddhi/core/aggregation/IncrementalDataPurging.java:173-178 | No request is built for a retain-all granularity, nor for one whose stored retention is -1 ms (the same boxed value as the sentinel). Every request's cutoff is `now` minus its granularity's retention. |
| Tick.Run | modules/siddhi-core/src/main/java/org/wso2/siddhi/core/aggregation/IncrementalDataPurging.java:164-200 | The attempted requests are a prefix of the eligible requests, in table order. There is no error exactly when every eligible request was attempted and succeeded. On error, the last attempt is the failing one, the error names its table and stage, and every earlier attempt succeeded, so nothing later is attempted. |
| Tick.SevenDayTick | modules/siddhi-core/src/main/java/org/wso2/siddhi/core/aggregation/IncrementalDataPurging.java:172-178 | With the worked example's policy, a tick at `T` builds exactly two requests: the seconds table with cutoff `T-30000`, then the hours table with cutoff `T-604800000`. |
| Tick.SharedBatchOverPurges | modules/siddhi-core/src/main/java/org/wso2/siddhi/core/aggregation/IncrementalDataPurging.java:168-191 | With the shared, never-cleared chunk, two ticks 15 minutes apart over a minutes table and then a seconds table: the second tick's minutes delete still receives the first tick's seconds cutoff. A one-minute-old minutes row is therefore deleted although its retention is 24 hours. This holds whether each parameter row copies the reused cutoff array or keeps the array itself. |
| Tick.FreshBatchDeletesOnlyExpired | modules/siddhi-core/src/main/java/org/wso2/siddhi/core/aggregation/IncrementalDataPurging.java:178-191 | With a batch holding only the request's own cutoff, a delete removes a row exactly when the row is older than its table's retention at tick time. |
| Tick.MinusOneRetentionSkipped | modules/siddhi-core/src/main/java/org/wso2/siddhi/core/aggregation/IncrementalDataPurging.java:145-173 | A retention element that parses to -1 ms is stored as `Keep(-1)`, and the tick builds no request for that table, because on OpenJDK the boxed -1 is the sentinel object. |

## Left out

- The scheduler `executeIncrementalDataPurging` (lines 235-250) is not modelled. It concerns timer and executor interaction. Its handle is a static field shared by every aggregation (line 69). Both of its branches schedule a new task, and only one cancels the old task first.
- `matchingMetaInfoHolder` (lines 205-230) is not modelled. It builds opaque meta-event objects for the condition compiler. The predicate is kept as the abstract `Condition` value.
- `Table.compileCondition` and `Table.deleteEvents` are foreign calls. They appear only through the `outcome` oracle. Which rows a delete removes is stated through the `Deletes` predicate, under the assumption that a table removes every row the condition matches for some parameter row.
- `timeToLong` and `normalizeDuration` are not part of this model. Durations arrive through the `timeToLong` parameter, which never fails, so parse errors are not modelled. Keys arrive as `Granularity` values.
- The year length assumes a year of 365 days. `Expression.Time` is not part of this model.
- Looking up the annotation by its lower-cased name (lines 112-117) is plumbing. The purge annotation is an `Option` input.
- Logging (lines 188, 193-194) is not modelled.
- `System.currentTimeMillis()` (line 166) becomes the parameter `now`.
- `BaseIncrementalDataPurgingValueStore` and the stream event pool are not part of this model. `createStreamEvent` turns the one cutoff array a tick reuses (lines 168, 179-180) into a parameter row. Whether that row copies the array or keeps it is not visible here, so `RowsLeft` and `BatchAsWritten` take both readings as a flag, and the finding holds under both.
- Text.EqualsIgnoreCase: models ASCII case folding only. Java's `equalsIgnoreCase` also folds non-ASCII characters such as U+017F (long s), which it treats as equal to `s`.
- Tick.Run: cutoffs are unbounded integers, so the 64-bit wrap-around of `currentTime - retention` for extreme retentions is not modelled.
- Tick.Run: with no failures, the attempted requests are the tick's delete calls. On a compile failure the last attempted request never reached the delete call; its stage records this.

## Findings

| source | as written | input that shows it | evidently intended | confidence | as-written member | corrected member |
|---|---|---|---|---|---|---|
| modules/siddhi-core/src/main/java/org/wso2/siddhi/core/aggregation/IncrementalDataPurging.java:72-191 | Every request appends its parameter row to the instance field `eventChunk`, which is never cleared. Each `deleteEvents` call receives the whole chunk: all earlier cutoffs of this tick and of earlier ticks, plus its own. | A minutes table then a seconds table with default retentions, ticks at `T` and `T+900000`. The second tick's minutes delete receives the first tick's rows, which hold `T-30000` under either reading of the row, so a minutes row stamped `T-60000` is deleted although minutes keep 24 hours. | Each delete receives a batch holding only its own cutoff, so it removes exactly the rows older than that table's retention. | medium: relies on `deleteEvents` removing rows that match any row of the batch, and on the same instance running every tick (line 241); the example does not depend on whether `createStreamEvent` copies the cutoff array; not executed | Tick.SharedBatchOverPurges | Tick.FreshBatchDeletesOnlyExpired |
