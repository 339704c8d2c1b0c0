/**
 * The readiness bookkeeping of the sampler: two maps from node name to
 * the elapsed second at which something was first observed (the node
 * appearing in the list; the node reporting Ready=True). Both maps are
 * only ever extended, never overwritten.
 */
module Readiness {
  import opened Cluster

  /**
   * Record `t` for every name of `names` that has no timestamp yet; names
   * that already have one keep it.
   */
  function Stamp(m: map<string, nat>, names: set<string>, t: nat): map<string, nat>
  {
    map n | n in m.Keys + names :: if n in m then m[n] else t
  }

  /**
   * Write-once: stamping keeps every existing timestamp, adds exactly the
   * new names, and gives each of them `t`.
   */
  lemma StampKeepsExisting(m: map<string, nat>, names: set<string>, t: nat)
    ensures Stamp(m, names, t).Keys == m.Keys + names
    ensures forall n | n in m :: Stamp(m, names, t)[n] == m[n]
    ensures forall n | n in names && n !in m :: Stamp(m, names, t)[n] == t
  {
  }

  /** First-seen bookkeeping for one more entry of a node list: stamp its name unless already stamped. */
  lemma SeenStep(firstSeen: map<string, nat>, nodes: seq<NodeStatus>, k: nat, t: nat)
    requires k < |nodes|
    ensures var s := Stamp(firstSeen, NamesOf(nodes[..k]), t);
            Stamp(firstSeen, NamesOf(nodes[..k + 1]), t) == if nodes[k].name in s then s else s[nodes[k].name := t]
  {
  }

  /** Ready bookkeeping for one more entry of a node list: stamp its name if it carries a ready condition. */
  lemma ReadyStep(readyTime: map<string, nat>, nodes: seq<NodeStatus>, k: nat, t: nat)
    requires k < |nodes|
    ensures var r := Stamp(readyTime, ReadyNamesOf(nodes[..k]), t);
            Stamp(readyTime, ReadyNamesOf(nodes[..k + 1]), t) ==
            if ReadyConditionIn(nodes[k].conditions) then Stamp(r, {nodes[k].name}, t) else r
  {
  }

  /** Observing the same names again, at any later time, changes nothing. */
  lemma StampIdempotent(m: map<string, nat>, names: set<string>, t: nat, later: nat)
    ensures Stamp(Stamp(m, names, t), names, later) == Stamp(m, names, t)
  {
  }

  /** The two maps the loop keeps. */
  datatype Track = FirstSeen | ReadyAt

  /** The names a tick contributes to a track. */
  function Observed(track: Track, t: Tick): set<string> {
    match track
    case FirstSeen => NamesOf(t.nodes)
    case ReadyAt => ReadyNamesOf(t.nodes)
  }

  /** The contents of a track after the first `k` ticks have been processed, in order. */
  function StampsAfter(track: Track, ticks: seq<Tick>, k: nat): map<string, nat>
    requires k <= |ticks|
  {
    if k == 0 then map[]
    else Stamp(StampsAfter(track, ticks, k - 1), Observed(track, ticks[k - 1]), ticks[k - 1].elapsed)
  }

  /** `node_first_seen` after the first `k` ticks. */
  function FirstSeenAfter(ticks: seq<Tick>, k: nat): map<string, nat>
    requires k <= |ticks|
  {
    StampsAfter(FirstSeen, ticks, k)
  }

  /** `node_ready_time` after the first `k` ticks. */
  function ReadyAfter(ticks: seq<Tick>, k: nat): map<string, nat>
    requires k <= |ticks|
  {
    StampsAfter(ReadyAt, ticks, k)
  }

  /** Write-once: every timestamp present after `k` ticks is still there, unchanged, after `k'` ticks. */
  lemma {:induction false} StampsWriteOnce(track: Track, ticks: seq<Tick>, k: nat, k': nat)
    requires k <= k' <= |ticks|
    ensures forall n | n in StampsAfter(track, ticks, k) ::
              n in StampsAfter(track, ticks, k') && StampsAfter(track, ticks, k')[n] == StampsAfter(track, ticks, k)[n]
    decreases k'
  {
    if k < k' {
      StampsWriteOnce(track, ticks, k, k' - 1);
      StampKeepsExisting(StampsAfter(track, ticks, k' - 1), Observed(track, ticks[k' - 1]), ticks[k' - 1].elapsed);
    }
  }

  /** The names observed on a track by the first `k` ticks. */
  function ObservedBy(track: Track, ticks: seq<Tick>, k: nat): set<string>
    requires k <= |ticks|
  {
    set j, n | 0 <= j < k && n in Observed(track, ticks[j]) :: n
  }

  /** A name has a timestamp after `k` ticks exactly when one of those ticks observed it. */
  lemma {:induction false} StampedIffObserved(track: Track, ticks: seq<Tick>, k: nat)
    requires k <= |ticks|
    ensures StampsAfter(track, ticks, k).Keys == ObservedBy(track, ticks, k)
  {
    if k > 0 {
      StampedIffObserved(track, ticks, k - 1);
      StampKeepsExisting(StampsAfter(track, ticks, k - 1), Observed(track, ticks[k - 1]), ticks[k - 1].elapsed);
      assert ObservedBy(track, ticks, k) == ObservedBy(track, ticks, k - 1) + Observed(track, ticks[k - 1]);
    }
  }

  /** A name's timestamp is the elapsed reading of the first tick that observed it. */
  lemma StampIsFirstObservation(track: Track, ticks: seq<Tick>, k: nat, n: string, j: nat)
    requires j < k <= |ticks| && n in Observed(track, ticks[j])
    requires forall i | 0 <= i < j :: n !in Observed(track, ticks[i])
    ensures n in StampsAfter(track, ticks, k) && StampsAfter(track, ticks, k)[n] == ticks[j].elapsed
  {
    StampedIffObserved(track, ticks, j);
    StampKeepsExisting(StampsAfter(track, ticks, j), Observed(track, ticks[j]), ticks[j].elapsed);
    StampsWriteOnce(track, ticks, j + 1, k);
  }

  /** Every timestamp is the elapsed reading of some processed tick, so a bound on those bounds it. */
  lemma {:induction false} StampsBounded(track: Track, ticks: seq<Tick>, k: nat, bound: nat)
    requires k <= |ticks|
    requires forall j | 0 <= j < k :: ticks[j].elapsed <= bound
    ensures forall n | n in StampsAfter(track, ticks, k) :: StampsAfter(track, ticks, k)[n] <= bound
  {
    if k > 0 {
      StampsBounded(track, ticks, k - 1, bound);
      StampKeepsExisting(StampsAfter(track, ticks, k - 1), Observed(track, ticks[k - 1]), ticks[k - 1].elapsed);
    }
  }

  /**
   * Ready implies first-seen: after any number of ticks every node with a
   * ready time has a first-seen time, and with non-decreasing clock
   * readings the first-seen time is no later.
   */
  lemma {:induction false} ReadyWithinSeen(ticks: seq<Tick>, k: nat)
    requires k <= |ticks|
    ensures ReadyAfter(ticks, k).Keys <= FirstSeenAfter(ticks, k).Keys
    ensures ElapsedMonotone(ticks, k) ==>
              forall n | n in ReadyAfter(ticks, k) :: FirstSeenAfter(ticks, k)[n] <= ReadyAfter(ticks, k)[n]
  {
    if k > 0 {
      var last := ticks[k - 1];
      ReadyWithinSeen(ticks, k - 1);
      ReadyNamesWithinNames(last.nodes);
      StampKeepsExisting(FirstSeenAfter(ticks, k - 1), NamesOf(last.nodes), last.elapsed);
      StampKeepsExisting(ReadyAfter(ticks, k - 1), ReadyNamesOf(last.nodes), last.elapsed);
      if ElapsedMonotone(ticks, k) {
        StampsBounded(FirstSeen, ticks, k - 1, last.elapsed);
      }
    }
  }

  /** Keys of a smaller set are no more numerous. */
  lemma {:induction false} SubsetCardinality(a: set<string>, b: set<string>)
    requires a <= b
    ensures |a| <= |b|
    decreases |b|
  {
    if b != {} {
      var x :| x in b;
      SubsetCardinality(a - {x}, b - {x});
    }
  }

  /** The number of stamped names never decreases as the run goes on. */
  lemma StampCountMonotone(track: Track, ticks: seq<Tick>, k: nat, k': nat)
    requires k <= k' <= |ticks|
    ensures |StampsAfter(track, ticks, k)| <= |StampsAfter(track, ticks, k')|
  {
    StampsWriteOnce(track, ticks, k, k');
    SubsetCardinality(StampsAfter(track, ticks, k).Keys, StampsAfter(track, ticks, k').Keys);
  }

  /**
   * `node_ready_durations`: for every node with a ready time, ready time
   * minus first-seen time. A node without a first-seen time would make the
   * source raise; ReadyWithinSeen shows the loop never produces one.
   */
  function ReadyDurations(firstSeen: map<string, nat>, readyTime: map<string, nat>): (d: map<string, int>)
    requires readyTime.Keys <= firstSeen.Keys
    ensures d.Keys == readyTime.Keys
    ensures forall n | n in d :: d[n] == readyTime[n] as int - firstSeen[n] as int
  {
    map n | n in readyTime :: readyTime[n] as int - firstSeen[n] as int
  }

  /** After any number of ticks there is one duration per ready node, none negative under a non-decreasing clock. */
  lemma DurationsNonNegative(ticks: seq<Tick>, k: nat)
    requires k <= |ticks|
    ensures ReadyAfter(ticks, k).Keys <= FirstSeenAfter(ticks, k).Keys
    ensures ReadyDurations(FirstSeenAfter(ticks, k), ReadyAfter(ticks, k)).Keys == ReadyAfter(ticks, k).Keys
    ensures ElapsedMonotone(ticks, k) ==>
              forall n | n in ReadyAfter(ticks, k) :: ReadyDurations(FirstSeenAfter(ticks, k), ReadyAfter(ticks, k))[n] >= 0
  {
    ReadyWithinSeen(ticks, k);
  }
}
