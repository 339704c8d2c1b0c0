/**
 * Small concrete runs: a scale-out that reaches its target, one that
 * times out, and one node's path from absent to ready.
 */
module Scenarios {
  import opened Wrappers
  import opened Cluster
  import opened Readiness
  import opened Sampler

  /** Ticks every 10 seconds with the given available counts and no nodes. */
  function Polls(counts: seq<nat>): (ticks: seq<Tick>)
    ensures |ticks| == |counts|
    ensures forall j | 0 <= j < |counts| :: ticks[j] == Tick(10 * j, 10 * j, Some(counts[j]), [])
  {
    seq(|counts|, j requires 0 <= j < |counts| => Tick(10 * j, 10 * j, Some(counts[j]), []))
  }

  /** Target 3 with counts 0, 1, 3 at seconds 0, 10, 20: three rows and the target reached. */
  lemma ReachesTargetOnThirdPass()
    ensures Stops(Polls([0, 1, 3]), 3, 600)
    ensures RunLength(Polls([0, 1, 3]), 3, 600) == 3
    ensures !EndsByTimeout(Polls([0, 1, 3]), 3, 600)
    ensures Series(Polls([0, 1, 3]), 3)[2].available == 3
  {
    var ticks := Polls([0, 1, 3]);
    assert Halts(ticks[2], 3, 600);
    SeriesAt(ticks, 3);
  }

  /** Target 1000, counts of at most 500, timeout 30: rows at 0, 10, 20, then the guard at 30 ends the run. */
  lemma TimesOutAfterThreePasses()
    ensures Stops(Polls([0, 200, 500, 500]), 1000, 30)
    ensures RunLength(Polls([0, 200, 500, 500]), 1000, 30) == 3
    ensures EndsByTimeout(Polls([0, 200, 500, 500]), 1000, 30)
  {
    var ticks := Polls([0, 200, 500, 500]);
    assert Halts(ticks[3], 1000, 30);
    assert !Halts(ticks[0], 1000, 30) && !Halts(ticks[1], 1000, 30) && !Halts(ticks[2], 1000, 30);
  }

  const NotReady := NodeStatus("node-a", [Condition("Ready", "False")])
  const NowReady := NodeStatus("node-a", [Condition("MemoryPressure", "False"), Condition("Ready", "True")])

  /** node-a absent at second 0, listed but not ready at 10, ready at 20. */
  const NodeJoins := [Tick(0, 0, None, []), Tick(10, 10, None, [NotReady]), Tick(20, 20, None, [NowReady])]

  /** node-a is first seen at 10, ready at 20, and takes 10 seconds to become ready. */
  lemma NodeReadyAfterTenSeconds()
    ensures "node-a" in FirstSeenAfter(NodeJoins, 3) && "node-a" in ReadyAfter(NodeJoins, 3)
    ensures FirstSeenAfter(NodeJoins, 3)["node-a"] == 10
    ensures ReadyAfter(NodeJoins, 3)["node-a"] == 20
    ensures ReadyAfter(NodeJoins, 3).Keys <= FirstSeenAfter(NodeJoins, 3).Keys
    ensures ReadyDurations(FirstSeenAfter(NodeJoins, 3), ReadyAfter(NodeJoins, 3))["node-a"] == 10
  {
    var ticks := NodeJoins;
    assert ticks[1].nodes[0].name == "node-a";
    assert "node-a" in Observed(FirstSeen, ticks[1]);
    assert !IsReadyCondition(NotReady.conditions[0]);
    assert IsReadyCondition(NowReady.conditions[1]);
    assert ReadyConditionIn(ticks[2].nodes[0].conditions);
    assert "node-a" !in Observed(ReadyAt, ticks[1]);
    assert "node-a" in Observed(ReadyAt, ticks[2]);
    StampIsFirstObservation(FirstSeen, ticks, 3, "node-a", 1);
    StampIsFirstObservation(ReadyAt, ticks, 3, "node-a", 2);
    ReadyWithinSeen(ticks, 3);
  }
}
