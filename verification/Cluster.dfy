/** The whole cluster: the ring places the keys, the router replicates and fails over, and the result is one map. */
module Cluster {
  import opened KvSpec
  import opened Clockwise
  import opened HashRing
  import opened Failover
  import opened Deployment
  import opened Answers
  import opened Linearizability
  import opened CrashStop
  import opened FaultTolerance
  import opened Placement

  lemma OneMapWhileReplicasLast(c: Config, m: nat, ls: seq<Label>)
    requires ValidConfig(c) && (forall k :: |c.prefs(k)| == m)
    requires Run(c, CrashStop, WriterAlone, ls) && |After(c, ls).crashed| < m
    ensures BehavesLikeOneMap(c, After(c, ls))
  {
    CrashStopRefinement(c, ls);
    FewCrashesAreInvisible(c, WriterAlone, ls);
    HistoryAnswers(Order(After(c, ls).log));
  }

  /** Every request is answered, in an order that respects real time, as its key's last earlier write calls for, which
      is as one map answers it; and every surviving replica of a key that is not being written holds what its last write
      left. */
  ghost predicate BehavesLikeOneMap(c: Config, s: State) {
    var order := Order(s.log);
    && Linearization(s.log, order) && LikeOneMap(map[], Requests(order), Responses(order))
    && (forall j :: 0 <= j < |s.log| && s.log[j].Responded? ==>
          !s.log[j].resp.Error? && Contains(order, s.log[j].id, s.log[j].resp))
    && (forall k, j, v :: 0 <= j < |c.prefs(k)| && c.prefs(k)[j] !in s.crashed && !BeingWritten(s, k) ==>
          (Lookup(StoreOf(s, c.prefs(k)[j]), k) == Some(v) <==> Holds(map[], Requests(order), |order|, k, v)))
  }

  /** A cluster of plain nodes behind a router behaves like one map, in every crash-stop run in which writes of a key do
      not overlap other requests on it and fewer nodes crash than a key has replicas. */
  lemma ClusterIsOneMap(c: Config, h: Hash, vnodes: nat, ids: seq<Node>, factor: nat, ls: seq<Label>)
    requires Deploys(c, h, vnodes, ids, factor) && Run(c, CrashStop, WriterAlone, ls)
    requires |After(c, ls).crashed| < Replicas(factor, ids)
    ensures BehavesLikeOneMap(c, After(c, ls))
  {
    ClusterIsValid(c, h, vnodes, ids, factor);
    OneMapWhileReplicasLast(c, Replicas(factor, ids), ls);
  }

  /** Whatever fails, at most as many nodes hold a key as it has replicas, all of them in its preference list. */
  lemma ClusterPlacement(c: Config, h: Hash, vnodes: nat, ids: seq<Node>, factor: nat, v: Overlap, ls: seq<Label>, k: Key)
    requires Deploys(c, h, vnodes, ids, factor) && Run(c, Anything, v, ls)
    ensures forall n :: n in Holders(After(c, ls), k) ==> n in c.prefs(k)
    ensures |Holders(After(c, ls), k)| <= Replicas(factor, ids)
  {
    ClusterIsValid(c, h, vnodes, ids, factor);
    HoldersArePreferred(c, v, ls, k);
  }

  lemma RingWithout(h: Hash, vnodes: nat, ids: seq<Node>, x: Node)
    requires Disjoint(h, vnodes, ids + [x]) && NoRepeats(ids + [x])
    ensures OwnsExactly(Build(h, vnodes, ids + [x]), Positions(h, x, vnodes), x)
    ensures Build(h, vnodes, ids + [x]) - Positions(h, x, vnodes) == Build(h, vnodes, ids)
  {
    assert (ids + [x])[|ids|] == x && forall i :: 0 <= i < |ids| ==> (ids + [x])[i] == ids[i];
    BuildOwnsExactly(h, vnodes, ids + [x], x);
    RemovalRebuilds(h, vnodes, ids + [x], x);
    WithoutAppend(ids, x, x);
    NothingLeftOut(ids, x);
  }

  /** Adding a node to a deployed cluster replaces at most one replica of any key: nobody but the new node joins, and
      nobody but the node that was next in line leaves. */
  lemma GrowthIsGentle(c: Config, c': Config, h: Hash, vnodes: nat, ids: seq<Node>, x: Node, factor: nat, k: Key)
    requires Deploys(c, h, vnodes, ids, factor) && Deploys(c', h, vnodes, ids + [x], factor)
    ensures Replaces(c'.prefs(k), c.prefs(k), x,
                     Next(FullList(Build(h, vnodes, ids + [x]), h(k)), if factor == 0 then 1 else factor))
  {
    var r, ps := Build(h, vnodes, ids + [x]), Positions(h, x, vnodes);
    RingWithout(h, vnodes, ids, x);
    assert PlacedBy(c, k, h, vnodes, ids, factor) && PlacedBy(c', k, h, vnodes, ids + [x], factor);
    AtMostOneReplaced(r, ps, x, h(k), if factor == 0 then 1 else factor);
  }
}
