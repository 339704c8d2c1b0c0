# Scaling-telemetry sampler, modelled in Dafny

This project models `track_scaling_telemetry` (`src/utils/Sample.py`). The function watches a Kubernetes Deployment scale out. It polls until the available-replica count reaches a target or a timeout runs out. On every pass it:

- reads the deployment's `available_replicas`, with null read as 0;
- lists the nodes;
- records for each node name the elapsed second at which it was first listed (`node_first_seen`) and the elapsed second at which it first reported `Ready=True` (`node_ready_time`);
- appends one `(elapsed, available, total_nodes, ready_nodes)` row to the time series.

After the loop it derives `ready_at - first_seen` for every node that became ready.

The cluster and the clock are inputs. A run is driven by a sequence of `Tick`s. The tick for pass `i` holds:

- `clock`: the whole seconds at which the loop guard is evaluated;
- `elapsed`: the second reading, taken at the top of the body;
- `available`: the optional replica count;
- `nodes`: the node list, each node with its `(type, status)` conditions.

With an integer timeout, `floor(t) < timeout` holds exactly when `t < timeout`, so the floored `clock` decides the guard the same way the float does.

Modules:

- `Wrappers` (`wrappers.dfy`): `Option`.
- `Cluster` (`cluster.dfy`): the observations, the null-to-0 rule, the `Ready=True` test, and the name sets of a node list.
- `Readiness` (`readiness.dfy`): the two write-once maps.
  - `Stamp` is one pass's update.
  - `StampsAfter` / `FirstSeenAfter` / `ReadyAfter` give the state after `k` ticks.
  - Lemmas prove write-once and first-observation, ready implies first-seen, and non-negative durations.
  - `ReadyDurations` is the final dict comprehension.
- `Sampler` (`sampler.dfy`): the loop itself.
  - `TrackScalingTelemetry` is a `while` loop with `break`.
  - `SamplePass` is one iteration of its body.
  - `ObserveNodes` / `ObserveConditions` are the inner `for` loops.
  - Each is proved against the specification functions `FirstHalt`, `RunLength`, `RowAt` and `Series`. The lemmas `RunRows`, `RowContents` and `ReadyNodesMonotone` state what the series promises.
- `Scenarios` (`scenarios.dfy`): three concrete runs.
  - A scale-out reaching its target on the third pass.
  - A run timing out after three passes.
  - A node first seen at 10 s and ready at 20 s.

Behaviour worth stating because it is easy to assume otherwise:

- The code computes no min/max/mean aggregate over newly added nodes, so none is modelled.
- The code does not guarantee that elapsed values strictly increase from 0.
- A node whose conditions list is null makes the code raise; it is not treated as "not ready".

## Model

| member | source | states |
|---|---|---|
| `Cluster.AvailableOf` | src/utils/Sample.py:40-41 | a null available-replica count is recorded as 0, any other count as itself |
| `Cluster.NamesOf` | src/utils/Sample.py:45 | the set of distinct `metadata.name`s in a node list (`all_nodes`) |
| `Cluster.IsReadyCondition` | src/utils/Sample.py:54 | a condition whose type is `"Ready"` and whose status is `"True"` |
| `Cluster.ReadyConditionIn` | src/utils/Sample.py:53-54 | some condition of the list is `Ready`/`True` |
| `Cluster.ReadyNamesOf` | src/utils/Sample.py:48-56 | the names of the node-list entries that carry a `Ready`/`True` condition |
| `Readiness.Stamp` | src/utils/Sample.py:48-56 | one pass's guarded insertions: every name of the batch without a timestamp gets the pass's elapsed value, every other entry is kept |
| `Readiness.StampsAfter` | src/utils/Sample.py:36-56 | either map after the first `k` passes: the empty dict stamped, pass by pass in order, with what each pass observed |
| `Readiness.FirstSeenAfter` | src/utils/Sample.py:30-51 | `node_first_seen` after the first `k` passes |
| `Readiness.ReadyAfter` | src/utils/Sample.py:31-56 | `node_ready_time` after the first `k` passes |
| `Readiness.ObservedBy` | src/utils/Sample.py:48-59 | the names listed (or reported ready) by any of the first `k` passes |
| `Sampler.Halts` | src/utils/Sample.py:36-67 | a tick ends the run: its guard reading is at or past the timeout, or its available count reaches the target |
| `Sampler.EndsByTimeout` | src/utils/Sample.py:36-71 | the tick that ends the run is one whose guard fails, so the `else` branch runs |
| `Sampler.RowAt` | src/utils/Sample.py:37-63 | the row pass `j` appends: its elapsed reading, its null-to-0 count, its number of distinct names, and the number of names observed ready by passes `0..j` |
| `Sampler.Series` | src/utils/Sample.py:32-63 | `time_series` after `n` passes: the rows of passes `0..n-1` appended in order |
| `Readiness.StampKeepsExisting` | src/utils/Sample.py:48-56 | one pass's update keeps every existing timestamp unchanged, adds exactly the newly observed names, and gives each of them the current elapsed value |
| `Readiness.SeenStep` | src/utils/Sample.py:48-51 | processing one more node-list entry extends the first-seen map by that name unless it is already present |
| `Readiness.ReadyStep` | src/utils/Sample.py:53-56 | processing one more entry stamps its name as ready exactly when one of its conditions is `Ready`/`True` |
| `Readiness.StampIdempotent` | src/utils/Sample.py:50-56 | observing the same names again at a later elapsed value changes nothing, so the earlier timestamp is kept |
| `Readiness.StampsWriteOnce` | src/utils/Sample.py:48-56 | every timestamp present after `k` ticks is still present, with the same value, after any later number of ticks |
| `Readiness.StampedIffObserved` | src/utils/Sample.py:48-56 | after `k` ticks the names with a timestamp are exactly the names some of those ticks observed (listed, or listed with a ready condition) |
| `Readiness.StampIsFirstObservation` | src/utils/Sample.py:48-56 | a node's first-seen (ready) time is the elapsed value of the first tick that listed it (reported it ready) |
| `Readiness.StampsBounded` | src/utils/Sample.py:37-56 | every recorded timestamp is at most any bound on the elapsed readings of the ticks processed |
| `Readiness.ReadyWithinSeen` | src/utils/Sample.py:37-56 | every key of the ready map is a key of the first-seen map; with non-decreasing elapsed readings a node's first-seen time is at most its ready time |
| `Readiness.StampCountMonotone` | src/utils/Sample.py:59 | the size of either map never decreases as more ticks are processed |
| `Readiness.ReadyDurations` | src/utils/Sample.py:90-93 | the durations have exactly the keys of the ready map, each value being ready time minus first-seen time |
| `Readiness.DurationsNonNegative` | src/utils/Sample.py:90-93 | after any number of ticks there is one duration per ready node, and none is negative when elapsed readings do not decrease |
| `Sampler.FirstHalt` | src/utils/Sample.py:36-67 | the index of the first tick that ends the run: the first whose guard sees the timeout spent or whose available count reaches the target |
| `Sampler.RunLength` | src/utils/Sample.py:36-67 | the number of passes: every pass begins before the timeout, every pass but the last stays below the target, and the last reaches it exactly when the run did not time out |
| `Sampler.SeriesAt` | src/utils/Sample.py:63 | the series after `n` passes has `n` rows, row `j` being the row of pass `j` |
| `Sampler.ReadyNodesMonotone` | src/utils/Sample.py:58-59 | `ready_nodes` of an earlier row is at most that of any later row |
| `Sampler.RunRows` | src/utils/Sample.py:36-69 | a run's series has one row per pass; each row's elapsed is its tick's; each pass begins before the timeout; rows before the last stay below the target; the last reaches it iff the run did not time out; `ready_nodes` never decreases |
| `Sampler.RowContents` | src/utils/Sample.py:41-63 | each row holds the tick's available count (0 for null), the number of distinct names in its node list, and the size of the ready map after that pass |
| `Sampler.TimeoutAvailable` | src/utils/Sample.py:70-71 | the count the timeout warning reports: that of the last row, or 0 when no pass ran |
| `Sampler.TimeoutAvailableAsWritten` | src/utils/Sample.py:70-71 | as written, the warning has a count to read only when some pass ran, and it is that of the last row |
| `Sampler.TimeoutBeforeFirstPass` | src/utils/Sample.py:36-71 | when the first guard check already finds the timeout spent, the run times out with no pass, the as-written warning has no value, and the corrected one reports 0 |
| `Sampler.ObserveConditions` | src/utils/Sample.py:53-56 | scanning a node's conditions stamps its ready time exactly when some condition is `Ready`/`True`, keeping an existing ready time |
| `Sampler.ObserveNodes` | src/utils/Sample.py:48-56 | one pass over the node list leaves first-seen stamped for every listed name and ready stamped for every name with a ready condition, earlier timestamps untouched |
| `Sampler.SamplePass` | src/utils/Sample.py:37-63 | one loop body moves the two maps from their state after `i` ticks to their state after `i + 1` ticks and appends exactly row `i` |
| `Sampler.TrackScalingTelemetry` | src/utils/Sample.py:28-93 | returns the series of the passes made before the run ends, whether it reached the target or timed out, and the durations derived from the two maps after those passes |
| `Scenarios.ReachesTargetOnThirdPass` | src/utils/Sample.py:36-67 | with target 3 and counts 0, 1, 3 at seconds 0, 10, 20 the run makes three passes and reaches the target |
| `Scenarios.TimesOutAfterThreePasses` | src/utils/Sample.py:36-69 | with target 1000, counts up to 500 and timeout 30, passes run at 0, 10, 20 and the guard at 30 ends the run by timeout |
| `Scenarios.NodeReadyAfterTenSeconds` | src/utils/Sample.py:48-56 | a node absent at 0, listed at 10 and ready at 20 has first-seen 10, ready 20 and duration 10 |

## Left out

- CSV output to `scale_time_series.csv` and `node_ready_times.csv` (lines 73-87) and the `write_csv` flag: file I/O.
- Logging calls (lines 34, 61, 66, 71, 87): side effects only. The model does not raise the `UnboundLocalError` of the timeout warning; it is recorded under "## Findings" and in the `Sampler.TrackScalingTelemetry` line below.
- `time.time()` and `time.sleep(interval)`: two readings per pass are supplied in each tick, and the sleep is not modelled. `interval` therefore does not appear.
- `read_namespaced_deployment` and `list_node`: foreign client calls. Their results are the ticks' `available` and `nodes`. Exceptions they raise, which abort the run, are not modelled. `namespace` and `deployment_name` only address these calls.
- `initial_nodes` and `new_nodes` (lines 29, 46): computed but never used in the return value.
- A null `status.conditions` list: the model takes every node's conditions as a list. In the source a null list raises `TypeError`.
- A non-integer `timeout`: the model takes it as an integer, as the signature declares.
- The finite input: `TrackScalingTelemetry` requires that some supplied tick ends the run (`Stops`). This stands for the wall clock eventually passing the timeout.
- `Sampler.TrackScalingTelemetry`: the source returns only `(time_series, node_ready_durations)`. The extra `outcome` result stands for which of the two log lines fires: the success message at line 66 (`Reached`) or the timeout warning at line 71 (`TimedOut`). A run whose first guard check already finds the timeout spent returns an empty series, no durations and `TimedOut(0)`, where the source raises `UnboundLocalError` at line 71 (see "## Findings"). The method models the corrected behaviour there.
- `Readiness.ReadyDurations`: a Python dict iterates in insertion order, here the order in which nodes first became ready. A `map` has no order, so the model drops it; no caller in the source depends on it.
- `Readiness.DurationsNonNegative`: durations are proved non-negative only under non-decreasing elapsed readings (`ElapsedMonotone`), because `time.time()` is a wall clock that can step back.
- `src/utils/k8s_client.py` and the tests: client construction and scenario glue are not part of this model.

## Findings

| source | as written | input that shows it | evidently intended | confidence | as-written member | corrected member |
|---|---|---|---|---|---|---|
| src/utils/Sample.py:70-71 | the `while ... else` warning formats the local `available`, which is assigned only inside the loop body, so a loop that makes no pass raises `UnboundLocalError` | `timeout=0`, or any run whose first guard check already finds the timeout spent (e.g. the `list_node` call at line 29 outlasting the timeout) | the run returns an empty time series, reported as a timeout with 0 replicas available | high (not executed) | `Sampler.TimeoutBeforeFirstPass` | `Sampler.TimeoutAvailable` |
