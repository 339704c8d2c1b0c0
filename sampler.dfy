/**
 * The scaling-telemetry sampler: a polling loop bounded by a timeout that
 * records one row per pass and stops at the first pass whose available
 * replica count reaches the target.
 */
module Sampler {
  import opened Wrappers
  import opened Cluster
  import opened Readiness

  /** One row of the time series: (elapsed, available, total_nodes, ready_nodes). */
  datatype Sample = Sample(elapsed: nat, available: nat, totalNodes: nat, readyNodes: nat)

  /**
   * How the loop ended: the target was reached, or the guard found the
   * timeout spent; the latter carries the replica count the warning reports.
   */
  datatype Outcome = Reached | TimedOut(available: nat)

  /** Tick `t` ends the run: either its guard fails, or its pass reaches the target. */
  predicate Halts(t: Tick, targetReplicas: int, timeout: int) {
    t.clock >= timeout || AvailableOf(t) >= targetReplicas
  }

  /**
   * The supplied ticks are enough to finish the run: some tick ends it.
   * (The wall clock does advance, so a real run always ends.)
   */
  predicate Stops(ticks: seq<Tick>, targetReplicas: int, timeout: int) {
    exists k | 0 <= k < |ticks| :: Halts(ticks[k], targetReplicas, timeout)
  }

  /** The index of the tick that ends the run. */
  function FirstHalt(ticks: seq<Tick>, targetReplicas: int, timeout: int): (k: nat)
    requires Stops(ticks, targetReplicas, timeout)
    ensures k < |ticks| && Halts(ticks[k], targetReplicas, timeout)
    ensures forall j | 0 <= j < k :: !Halts(ticks[j], targetReplicas, timeout)
  {
    if Halts(ticks[0], targetReplicas, timeout) then 0
    else
      assert Stops(ticks[1..], targetReplicas, timeout) by {
        var k :| 0 <= k < |ticks| && Halts(ticks[k], targetReplicas, timeout);
        assert ticks[1..][k - 1] == ticks[k];
      }
      var k := FirstHalt(ticks[1..], targetReplicas, timeout);
      assert forall j | 1 <= j <= k :: ticks[j] == ticks[1..][j - 1];
      1 + k
  }

  /** The loop ended because its guard found the timeout spent. */
  predicate EndsByTimeout(ticks: seq<Tick>, targetReplicas: int, timeout: int)
    requires Stops(ticks, targetReplicas, timeout)
  {
    ticks[FirstHalt(ticks, targetReplicas, timeout)].clock >= timeout
  }

  /** The number of passes the loop makes: the ending tick counts only if its guard passed. */
  function RunLength(ticks: seq<Tick>, targetReplicas: int, timeout: int): (n: nat)
    requires Stops(ticks, targetReplicas, timeout)
    ensures n <= |ticks|
    ensures forall j | 0 <= j < n :: ticks[j].clock < timeout
    ensures forall j | 0 <= j < n - 1 :: AvailableOf(ticks[j]) < targetReplicas
    ensures EndsByTimeout(ticks, targetReplicas, timeout) ==> n < |ticks| && ticks[n].clock >= timeout
    ensures !EndsByTimeout(ticks, targetReplicas, timeout) <==> n > 0 && AvailableOf(ticks[n - 1]) >= targetReplicas
  {
    var k := FirstHalt(ticks, targetReplicas, timeout);
    if ticks[k].clock >= timeout then k else k + 1
  }

  /**
   * The row the pass over tick `j` appends: its elapsed reading, its
   * available count, the number of distinct names in its node list and the
   * number of nodes ever observed ready up to and including it.
   */
  function RowAt(ticks: seq<Tick>, j: nat): Sample
    requires j < |ticks|
  {
    var t := ticks[j];
    Sample(t.elapsed, AvailableOf(t), |NamesOf(t.nodes)|, |ObservedBy(ReadyAt, ticks, j + 1)|)
  }

  /** The time series after `n` passes: one row per pass, in order. */
  function Series(ticks: seq<Tick>, n: nat): seq<Sample>
    requires n <= |ticks|
  {
    if n == 0 then [] else Series(ticks, n - 1) + [RowAt(ticks, n - 1)]
  }

  /** Row `j` of the series is the row of the pass over tick `j`. */
  lemma {:induction false} SeriesAt(ticks: seq<Tick>, n: nat)
    requires n <= |ticks|
    ensures |Series(ticks, n)| == n
    ensures forall j | 0 <= j < n :: Series(ticks, n)[j] == RowAt(ticks, j)
  {
    if n > 0 {
      SeriesAt(ticks, n - 1);
    }
  }

  /** ready_nodes never decreases from one row to a later one. */
  lemma ReadyNodesMonotone(ticks: seq<Tick>, j: nat, j': nat)
    requires j <= j' < |ticks|
    ensures RowAt(ticks, j).readyNodes <= RowAt(ticks, j').readyNodes
  {
    assert ObservedBy(ReadyAt, ticks, j + 1) <= ObservedBy(ReadyAt, ticks, j' + 1);
    SubsetCardinality(ObservedBy(ReadyAt, ticks, j + 1), ObservedBy(ReadyAt, ticks, j' + 1));
  }

  /**
   * The rows of a run: one per pass, each pass begun before the timeout,
   * every row but the last below the target, the last at or above it
   * exactly when the run did not time out, and ready_nodes never
   * decreasing from one row to the next.
   */
  lemma RunRows(ticks: seq<Tick>, targetReplicas: int, timeout: int)
    requires Stops(ticks, targetReplicas, timeout)
    ensures var n := RunLength(ticks, targetReplicas, timeout);
            var series := Series(ticks, n);
            && |series| == n
            && (forall j | 0 <= j < n :: ticks[j].clock < timeout && series[j].elapsed == ticks[j].elapsed)
            && (forall j | 0 <= j < n - 1 :: series[j].available < targetReplicas)
            && (!EndsByTimeout(ticks, targetReplicas, timeout) <==> n > 0 && series[n - 1].available >= targetReplicas)
            && (EndsByTimeout(ticks, targetReplicas, timeout) ==> n < |ticks| && ticks[n].clock >= timeout)
            && (forall j, j' | 0 <= j <= j' < n :: series[j].readyNodes <= series[j'].readyNodes)
  {
    var n := RunLength(ticks, targetReplicas, timeout);
    SeriesAt(ticks, n);
    forall j, j' | 0 <= j <= j' < n
      ensures Series(ticks, n)[j].readyNodes <= Series(ticks, n)[j'].readyNodes
    {
      ReadyNodesMonotone(ticks, j, j');
    }
  }

  /** Every row records the tick's available count, null read as 0, and its number of distinct node names. */
  lemma RowContents(ticks: seq<Tick>, n: nat, j: nat)
    requires j < n <= |ticks|
    ensures |Series(ticks, n)| == n
    ensures Series(ticks, n)[j].available == AvailableOf(ticks[j])
    ensures ticks[j].available.None? ==> Series(ticks, n)[j].available == 0
    ensures Series(ticks, n)[j].totalNodes == |NamesOf(ticks[j].nodes)|
    ensures Series(ticks, n)[j].readyNodes == |ReadyAfter(ticks, j + 1)|
  {
    SeriesAt(ticks, n);
    StampedIffObserved(ReadyAt, ticks, j + 1);
  }

  /** The replica count the timeout warning reports: that of the last row, or 0 when there is none. */
  function TimeoutAvailable(series: seq<Sample>): (a: nat)
    ensures series == [] ==> a == 0
    ensures series != [] ==> a == series[|series| - 1].available
  {
    if series == [] then 0 else series[|series| - 1].available
  }

  /**
   * The replica count the timeout warning reads, as written: the local
   * `available` is bound only once a pass has run, so when the guard fails
   * before the first pass the warning raises UnboundLocalError instead of
   * the run returning (None here).
   */
  function TimeoutAvailableAsWritten(series: seq<Sample>): (a: Option<nat>)
    ensures a.None? <==> series == []
    ensures a.Some? ==> a.value == series[|series| - 1].available
  {
    if series == [] then None else Some(series[|series| - 1].available)
  }

  /**
   * A run whose first guard check already finds the timeout spent (say a
   * timeout of 0) makes no pass, so the warning as written has no count
   * to read and the call fails; the corrected report gives 0.
   */
  lemma TimeoutBeforeFirstPass(ticks: seq<Tick>, targetReplicas: int, timeout: int)
    requires |ticks| > 0 && ticks[0].clock >= timeout
    ensures Stops(ticks, targetReplicas, timeout)
    ensures EndsByTimeout(ticks, targetReplicas, timeout) && RunLength(ticks, targetReplicas, timeout) == 0
    ensures TimeoutAvailableAsWritten(Series(ticks, 0)) == None
    ensures TimeoutAvailable(Series(ticks, 0)) == 0
  {
  }

  /**
   * The scan of one node's conditions: the node gets ready time `elapsed`
   * if some condition is Ready=True and it has no ready time yet.
   */
  method ObserveConditions(readyTime: map<string, nat>, name: string, conditions: seq<Condition>, elapsed: nat)
    returns (ready: map<string, nat>)
    ensures ready == if ReadyConditionIn(conditions) then Stamp(readyTime, {name}, elapsed) else readyTime
  {
    ready := readyTime;
    var c := 0;
    while c < |conditions|
      invariant 0 <= c <= |conditions|
      invariant ready == if ReadyConditionIn(conditions[..c]) then Stamp(readyTime, {name}, elapsed) else readyTime
    {
      assert conditions[..c + 1][c] == conditions[c];
      assert forall i | 0 <= i < c :: conditions[..c + 1][i] == conditions[..c][i];
      if IsReadyCondition(conditions[c]) {
        if name !in ready {
          ready := ready[name := elapsed];
        }
      }
      c := c + 1;
    }
    assert conditions[..c] == conditions;
  }

  /**
   * One pass over a node list: every name not yet first-seen gets `elapsed`,
   * and every name with a Ready=True condition not yet ready gets `elapsed`.
   */
  method ObserveNodes(firstSeen: map<string, nat>, readyTime: map<string, nat>, nodes: seq<NodeStatus>, elapsed: nat)
    returns (seen: map<string, nat>, ready: map<string, nat>)
    ensures seen == Stamp(firstSeen, NamesOf(nodes), elapsed)
    ensures ready == Stamp(readyTime, ReadyNamesOf(nodes), elapsed)
  {
    seen, ready := firstSeen, readyTime;
    var k := 0;
    assert nodes[..0] == [];
    while k < |nodes|
      invariant 0 <= k <= |nodes|
      invariant seen == Stamp(firstSeen, NamesOf(nodes[..k]), elapsed)
      invariant ready == Stamp(readyTime, ReadyNamesOf(nodes[..k]), elapsed)
    {
      var name := nodes[k].name;
      SeenStep(firstSeen, nodes, k, elapsed);
      if name !in seen {
        seen := seen[name := elapsed];
      }
      ReadyStep(readyTime, nodes, k, elapsed);
      ready := ObserveConditions(ready, name, nodes[k].conditions, elapsed);
      k := k + 1;
    }
    assert nodes[..k] == nodes;
  }

  /**
   * One pass of the loop body over tick `i`: read the available count,
   * fold the node list into the two maps and append the row.
   */
  method SamplePass(ticks: seq<Tick>, i: nat, firstSeen: map<string, nat>, readyTime: map<string, nat>, series: seq<Sample>)
    returns (seen: map<string, nat>, ready: map<string, nat>, rows: seq<Sample>, available: nat)
    requires i < |ticks|
    requires firstSeen == FirstSeenAfter(ticks, i) && readyTime == ReadyAfter(ticks, i)
    requires series == Series(ticks, i)
    ensures seen == FirstSeenAfter(ticks, i + 1) && ready == ReadyAfter(ticks, i + 1)
    ensures rows == Series(ticks, i + 1)
    ensures available == AvailableOf(ticks[i])
  {
    var tick := ticks[i];
    var elapsed := tick.elapsed;
    available := AvailableOf(tick);
    seen, ready := ObserveNodes(firstSeen, readyTime, tick.nodes, elapsed);
    var totalNodes := |NamesOf(tick.nodes)|;
    var readyNodes := |ready|;
    StampedIffObserved(ReadyAt, ticks, i + 1);
    rows := series + [Sample(elapsed, available, totalNodes, readyNodes)];
  }

  /**
   * track_scaling_telemetry over the supplied ticks: the time series, the
   * per-node readiness durations, and how the loop ended.
   */
  method TrackScalingTelemetry(ticks: seq<Tick>, targetReplicas: int, timeout: int)
    returns (series: seq<Sample>, durations: map<string, int>, outcome: Outcome)
    requires Stops(ticks, targetReplicas, timeout)
    ensures series == Series(ticks, RunLength(ticks, targetReplicas, timeout))
    ensures outcome == if EndsByTimeout(ticks, targetReplicas, timeout) then TimedOut(TimeoutAvailable(series)) else Reached
    ensures var n := RunLength(ticks, targetReplicas, timeout);
            && ReadyAfter(ticks, n).Keys <= FirstSeenAfter(ticks, n).Keys
            && durations == ReadyDurations(FirstSeenAfter(ticks, n), ReadyAfter(ticks, n))
  {
    var firstSeen: map<string, nat> := map[];
    var readyTime: map<string, nat> := map[];
    series := [];
    var reached := false;
    var i := 0;
    while ticks[i].clock < timeout
      invariant 0 <= i <= FirstHalt(ticks, targetReplicas, timeout)
      invariant series == Series(ticks, i)
      invariant firstSeen == FirstSeenAfter(ticks, i)
      invariant readyTime == ReadyAfter(ticks, i)
      decreases |ticks| - i
    {
      var available;
      firstSeen, readyTime, series, available := SamplePass(ticks, i, firstSeen, readyTime, series);
      if available >= targetReplicas {
        reached := true;
        i := i + 1;
        break;
      }
      assert !Halts(ticks[i], targetReplicas, timeout);
      i := i + 1;
    }
    ghost var k := FirstHalt(ticks, targetReplicas, timeout);
    assert reached ==> k == i - 1 && RunLength(ticks, targetReplicas, timeout) == i;
    assert !reached ==> k == i && RunLength(ticks, targetReplicas, timeout) == i;
    outcome := if reached then Reached else TimedOut(TimeoutAvailable(series));
    ReadyWithinSeen(ticks, i);
    durations := ReadyDurations(firstSeen, readyTime);
  }
}
