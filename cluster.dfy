/**
 * What one pass of the sampling loop reads from the cluster. The two
 * client calls (read the deployment, list the nodes) and the two clock
 * readings of one pass are bundled into a `Tick`; a run is driven by a
 * sequence of ticks.
 */
module Cluster {
  import opened Wrappers

  /** One entry of a node's `status.conditions`: its `type` and `status` strings. */
  datatype Condition = Condition(kind: string, status: string)

  /** One item of the node list: `metadata.name` and `status.conditions`. */
  datatype NodeStatus = NodeStatus(name: string, conditions: seq<Condition>)

  /**
   * One pass of the loop as the environment presents it.
   *   clock     whole seconds since the start when the loop guard is evaluated
   *   elapsed   whole seconds since the start read at the top of the body
   *   available the deployment's `status.available_replicas`, None for null
   *   nodes     the items of the node list
   */
  datatype Tick = Tick(clock: nat, elapsed: nat, available: Option<nat>, nodes: seq<NodeStatus>)

  /** The available-replica count as the loop records it: a null count is 0. */
  function AvailableOf(t: Tick): (a: nat)
    ensures t.available.None? ==> a == 0
    ensures t.available.Some? ==> a == t.available.value
  {
    match t.available
    case None => 0
    case Some(n) => n
  }

  /** A condition that says the node is ready. */
  predicate IsReadyCondition(c: Condition) {
    c.kind == "Ready" && c.status == "True"
  }

  /** Some condition in the list says the node is ready. */
  predicate ReadyConditionIn(conditions: seq<Condition>) {
    exists i | 0 <= i < |conditions| :: IsReadyCondition(conditions[i])
  }

  /** The distinct names in a node list. */
  function NamesOf(nodes: seq<NodeStatus>): set<string> {
    set i | 0 <= i < |nodes| :: nodes[i].name
  }

  /** The names of the entries of a node list that carry a ready condition. */
  function ReadyNamesOf(nodes: seq<NodeStatus>): set<string> {
    set i | 0 <= i < |nodes| && ReadyConditionIn(nodes[i].conditions) :: nodes[i].name
  }

  /** Elapsed readings never decrease over the first `k` ticks. */
  predicate ElapsedMonotone(ticks: seq<Tick>, k: nat)
    requires k <= |ticks|
  {
    forall i, j | 0 <= i <= j < k :: ticks[i].elapsed <= ticks[j].elapsed
  }

  /** A name reported ready is a listed name. */
  lemma ReadyNamesWithinNames(nodes: seq<NodeStatus>)
    ensures ReadyNamesOf(nodes) <= NamesOf(nodes)
  {
  }
}
