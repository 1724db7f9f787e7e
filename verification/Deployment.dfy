/** What a deployed ring gives the failover machine: a valid preference list for every key. */
module Deployment {
  import opened KvSpec
  import opened HashRing
  import opened Failover
  import opened Grammar

  // ---------- Virtual nodes ----------

  /** `s` is the label of virtual node `i` of `x`: the id, a hash sign and the shortest digits of `i`. */
  ghost predicate Label(s: string, x: Node, i: nat, d: string) {
    Shortest(d, i) && s == x + "#" + d
  }

  lemma LabelOf(x: Node, i: nat) returns (d: string)
    ensures Label(VirtualNode(x, i), x, i, d)
  {
    d := Decimal(i);
    PrintedShortest(i);
  }

  /** The last hash sign tells the id from the index. */
  lemma LabelsDiffer(s: string, x: Node, i: nat, d: string, y: Node, j: nat, d': string)
    requires Label(s, x, i, d) && Label(s, y, j, d')
    ensures x == y && i == j
  {
    assert s[|x|] == '#' && s[|y|] == '#';
    assert forall p :: |x| < p < |s| ==> s[p] == d[p - |x| - 1];
    assert forall p :: |y| < p < |s| ==> s[p] == d'[p - |y| - 1];
    assert |x| == |y|;
    assert x == s[..|x|] && d == s[|x| + 1..];
  }

  /** Labels tell virtual nodes apart, whatever the ids. */
  lemma LabelsAreDistinct(x: Node, i: nat, y: Node, j: nat)
    ensures VirtualNode(x, i) == VirtualNode(y, j) <==> x == y && i == j
  {
    var d := LabelOf(x, i);
    var d' := LabelOf(y, j);
    if VirtualNode(x, i) == VirtualNode(y, j) { LabelsDiffer(VirtualNode(x, i), x, i, d, y, j, d'); }
  }

  lemma {:induction false} PositionsAre(h: Hash, x: Node, n: nat, p: nat)
    ensures p in Positions(h, x, n) <==> exists i :: 0 <= i < n && p == h(VirtualNode(x, i))
  {
    if n > 0 { PositionsAre(h, x, n - 1, p); }
  }

  /** A node that joins owns all its positions, even ones others had, and nobody else's; the other entries stay. */
  lemma JoinClaims(r: Ring, h: Hash, x: Node, n: nat, p: nat)
    ensures var r' := Claim(r, Positions(h, x, n), x);
            if exists i :: 0 <= i < n && p == h(VirtualNode(x, i)) then p in r' && r'[p] == x
            else (p in r' <==> p in r) && (p in r ==> r'[p] == r[p])
  {
    PositionsAre(h, x, n, p);
  }

  ghost predicate Injective(h: Hash) {
    forall s, t :: h(s) == h(t) ==> s == t
  }

  /** With a hash that never collides, every non-empty list of distinct nodes can be deployed. */
  lemma InjectiveIsDeployable(h: Hash, vnodes: nat, ids: seq<Node>)
    requires Injective(h) && vnodes > 0 && ids != [] && NoRepeats(ids)
    ensures Deployable(h, vnodes, ids)
  {
    forall a, b | 0 <= a < |ids| && 0 <= b < |ids| && ids[a] != ids[b]
      ensures Positions(h, ids[a], vnodes) !! Positions(h, ids[b], vnodes)
    {
      forall p | p in Positions(h, ids[a], vnodes) ensures p !in Positions(h, ids[b], vnodes) {
        Elsewhere(h, vnodes, ids[a], ids[b], p);
      }
    }
  }

  lemma Elsewhere(h: Hash, vnodes: nat, x: Node, y: Node, p: nat)
    requires Injective(h) && x != y && p in Positions(h, x, vnodes)
    ensures p !in Positions(h, y, vnodes)
  {
    PositionsAre(h, x, vnodes, p);
    PositionsAre(h, y, vnodes, p);
    var i :| 0 <= i < vnodes && p == h(VirtualNode(x, i));
    if j :| 0 <= j < vnodes && p == h(VirtualNode(y, j)) { LabelsAreDistinct(x, i, y, j); }
  }

  /** The error names the number of replicas tried, in the shortest digits. */
  lemma ErrorNamesTheList(n: nat) returns (d: string)
    ensures Shortest(d, n) && NoLiveReplica(n) == Error("no live replica for key (tried " + d + ")")
  {
    d := Decimal(n);
    PrintedShortest(n);
  }

  // ---------- Placement ----------

  /** How many replicas a key gets: the replication factor, at least one, at most every node. */
  function Replicas(factor: nat, ids: seq<Node>): nat {
    Min(if factor == 0 then 1 else factor, |ids|)
  }

  /** What the command line has to provide: nodes, without repetition, with virtual nodes that do not coincide. */
  ghost predicate Deployable(h: Hash, vnodes: nat, ids: seq<Node>) {
    ids != [] && NoRepeats(ids) && vnodes > 0 && Disjoint(h, vnodes, ids)
  }

  /** `c` sends key `k` where the ring built from `ids` says. */
  ghost predicate PlacedBy(c: Config, k: Key, h: Hash, vnodes: nat, ids: seq<Node>, factor: nat) {
    c.prefs(k) == PreferenceList(Build(h, vnodes, ids), h(k), if factor == 0 then 1 else factor)
  }

  /** `c` is the configuration a router works with: its nodes, and the preference lists of their ring. */
  ghost predicate Deploys(c: Config, h: Hash, vnodes: nat, ids: seq<Node>, factor: nat) {
    && Deployable(h, vnodes, ids)
    && (forall n :: n in c.nodes <==> n in ids)
    && (forall k :: PlacedBy(c, k, h, vnodes, ids, factor))
  }

  lemma KeyIsPlaced(c: Config, k: Key, h: Hash, vnodes: nat, ids: seq<Node>, factor: nat)
    requires Deployable(h, vnodes, ids) && PlacedBy(c, k, h, vnodes, ids, factor)
    ensures 0 < |c.prefs(k)| == Replicas(factor, ids) && NoRepeats(c.prefs(k))
    ensures |c.prefs(k)| == if factor <= 1 then 1 else if factor <= |ids| then factor else |ids|
    ensures forall n :: n in c.prefs(k) ==> n in ids
    ensures Build(h, vnodes, ids) != map[] && c.prefs(k)[0] == Owner(Build(h, vnodes, ids), h(k))
  {
    var r, count := Build(h, vnodes, ids), if factor == 0 then 1 else factor;
    EveryNodeOwns(h, vnodes, ids);
    assert ids[0] in r.Values;
    PreferenceListFacts(r, h(k), count, count);
  }

  /** The ring gives every key a preference list of distinct nodes, one for each replica. */
  lemma ClusterIsValid(c: Config, h: Hash, vnodes: nat, ids: seq<Node>, factor: nat)
    requires Deploys(c, h, vnodes, ids, factor)
    ensures ValidConfig(c) && forall k :: |c.prefs(k)| == Replicas(factor, ids)
  {
    forall k ensures 0 < |c.prefs(k)| == Replicas(factor, ids) && NoRepeats(c.prefs(k)) && Within(c.prefs(k), c.nodes) {
      assert PlacedBy(c, k, h, vnodes, ids, factor);
      KeyIsPlaced(c, k, h, vnodes, ids, factor);
    }
  }

  predicate Within(s: seq<Node>, nodes: set<Node>) {
    forall j :: 0 <= j < |s| ==> s[j] in nodes
  }

  /** The configuration of a router given these nodes. */
  ghost function ConfigOf(h: Hash, vnodes: nat, ids: seq<Node>, factor: nat): Config {
    Config((set n | n in ids), k => PreferenceList(Build(h, vnodes, ids), h(k), if factor == 0 then 1 else factor))
  }

  lemma ConfigOfDeploys(h: Hash, vnodes: nat, ids: seq<Node>, factor: nat)
    requires Deployable(h, vnodes, ids)
    ensures Deploys(ConfigOf(h, vnodes, ids, factor), h, vnodes, ids, factor)
  {
  }
}
