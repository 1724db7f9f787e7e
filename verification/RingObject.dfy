/** `ConsistentHashRing` as an object: the ordered map of positions and the list of nodes, changed in place, and the
    iterator walk of `get_nodes`. */
module RingObject {
  import opened KvSpec
  import opened Clockwise
  import opened HashRing

  /** An iterator of the ordered map at the first position not below `p`; None is `end()`. */
  predicate LowerBoundIs(keys: set<nat>, p: nat, it: Option<nat>) {
    match it
    case None => forall q :: q in keys ==> q < p
    case Some(x) => x in keys && p <= x && forall q :: q in keys && p <= q ==> x <= q
  }

  method LowerBound(keys: set<nat>, p: nat) returns (it: Option<nat>)
    ensures LowerBoundIs(keys, p, it)
  {
    it := None;
    var todo := keys;
    ghost var done: set<nat> := {};
    while todo != {}
      invariant done + todo == keys && LowerBoundIs(done, p, it)
      decreases todo
    {
      var q :| q in todo;
      if p <= q && (it.None? || q < it.value) { it := Some(q); }
      todo := todo - {q};
      done := done + {q};
    }
    assert done == keys;
  }

  /** The iterator stands at the `j`-th position of the lap, or at the end when that is the smallest position. */
  ghost predicate StandsAt(keys: set<nat>, lap: seq<nat>, it: Option<nat>, j: nat) {
    j < |lap| ==> if it.Some? then it.value == lap[j] else forall q :: q in keys ==> lap[j] <= q
  }

  lemma LapStart(keys: set<nat>, p: nat, lap: seq<nat>, it: Option<nat>)
    requires IsLap(keys, p, lap) && LowerBoundIs(keys, p, it)
    ensures StandsAt(keys, lap, it, 0)
  {
    if lap != [] {
      assert lap[0] in keys;
      if it.Some? {
        var i :| 0 <= i < |lap| && lap[i] == it.value;
      } else {
        forall q | q in keys ensures lap[0] <= q {
          var i :| 0 <= i < |lap| && lap[i] == q;
        }
      }
    }
  }

  /** Incrementing the iterator moves to the next position of the lap. */
  lemma LapNext(keys: set<nat>, p: nat, lap: seq<nat>, j: nat, it: Option<nat>)
    requires IsLap(keys, p, lap) && j + 1 < |lap| && LowerBoundIs(keys, lap[j] + 1, it)
    ensures StandsAt(keys, lap, it, j + 1)
  {
    var x, y := lap[j], lap[j + 1];
    assert x in keys && y in keys && Closer(p, x, y);
    if it.Some? {
      var i :| 0 <= i < |lap| && lap[i] == it.value;
    } else {
      forall q | q in keys ensures y <= q {
        var i :| 0 <= i < |lap| && lap[i] == q;
      }
    }
  }

  /** `std::remove` followed by `erase`. */
  method Keep(all: seq<Node>, id: Node) returns (kept: seq<Node>)
    ensures kept == Without(all, id)
  {
    kept := [];
    for i := 0 to |all|
      invariant kept == Without(all[..i], id)
    {
      WithoutAppend(all[..i], all[i], id);
      assert all[..i + 1] == all[..i] + [all[i]];
      if all[i] != id { kept := kept + [all[i]]; }
    }
    assert all[..|all|] == all;
  }

  /** One turn of the walk: while too few distinct owners were seen, the lap is not over. */
  lemma WalkTurn<T>(o: seq<T>, j: nat, wanted: nat)
    requires j <= |o| && wanted <= |Firsts(o)| && |Firsts(o[..j])| < wanted
    ensures j < |o|
    ensures var seen := Firsts(o[..j]); Firsts(o[..j + 1]) == if o[j] in seen then seen else seen + [o[j]]
  {
    LapNotOver(o, j, wanted);
    FirstsOfPrefix(o, j + 1);
  }

  lemma LapNotOver<T>(o: seq<T>, j: nat, wanted: nat)
    requires j <= |o| && wanted <= |Firsts(o)| && |Firsts(o[..j])| < wanted
    ensures j < |o|
  {
    assert o[..|o|] == o;
  }

  /** The lap and its owners, with what the walk needs to know of them. */
  lemma LapAndOwners(r: Ring, p: nat) returns (lap: seq<nat>, o: seq<Node>)
    requires r != map[]
    ensures IsLap(r.Keys, p, lap) && |o| == |lap| && forall i :: 0 <= i < |lap| ==> lap[i] in r && o[i] == r[lap[i]]
    ensures FullList(r, p) == Firsts(o) && |Firsts(o)| == |r.Values|
  {
    lap, o := Lap(r.Keys, p), Owners(r, p);
    FullLap(r, p);
  }

  /** The loop of `get_nodes`: skip owners already collected, wrap at the end of the map. */
  method WalkClockwise(r: Ring, p: nat, wanted: nat, ghost lap: seq<nat>, ghost o: seq<Node>) returns (list: seq<Node>)
    requires IsLap(r.Keys, p, lap) && |o| == |lap| && forall i :: 0 <= i < |lap| ==> lap[i] in r && o[i] == r[lap[i]]
    requires wanted <= |Firsts(o)|
    ensures |list| == wanted && list <= Firsts(o)
  {
    list := [];
    ghost var j := 0;
    var it := LowerBound(r.Keys, p);
    LapStart(r.Keys, p, lap, it);
    while |list| < wanted
      invariant j <= |o| && list == Firsts(o[..j]) && |list| <= wanted && StandsAt(r.Keys, lap, it, j)
      decreases |o| - j
    {
      WalkTurn(o, j, wanted);
      if it.None? { it := LowerBound(r.Keys, 0); }
      assert lap[j] in r && it.value == lap[j];
      var id := r[it.value];
      if id !in list { list := list + [id]; }
      it := LowerBound(r.Keys, it.value + 1);
      if j + 1 < |lap| { LapNext(r.Keys, p, lap, j, it); }
      j := j + 1;
    }
    FirstsGrow(o, j);
  }

  lemma PrefixIsList(r: Ring, p: nat, list: seq<Node>)
    requires list <= FullList(r, p)
    ensures PreferenceList(r, p, |list|) == list
  {
  }

  lemma CappedList(r: Ring, p: nat, count: nat, n: nat)
    requires |r.Values| <= n
    ensures PreferenceList(r, p, Min(count, n)) == PreferenceList(r, p, count)
  {
    FullListFacts(r, p);
  }

  class ConsistentHashRing {
    const hash: Hash
    const vnodes: nat
    var ring: Ring
    var nodes: seq<Node>

    /** The invariant of a well-used ring: distinct nodes, disjoint positions, and the ring is the one they build. */
    ghost predicate Valid()
      reads this
    {
      NoRepeats(nodes) && Disjoint(hash, vnodes, nodes) && ring == Build(hash, vnodes, nodes)
    }

    /** The walk for `count` nodes ends, or is never begun. */
    predicate Ends(count: nat)
      reads this
    {
      ring == map[] || Min(count, |nodes|) <= |ring.Values|
    }

    constructor (hash: Hash, vnodes: nat)
      ensures Valid() && this.hash == hash && this.vnodes == vnodes && ring == map[] && nodes == []
    {
      this.hash := hash;
      this.vnodes := vnodes;
      ring := map[];
      nodes := [];
    }

    /** On a valid ring every walk ends. */
    lemma ValidEnds(count: nat)
      requires Valid()
      ensures Ends(count)
    {
      if vnodes > 0 {
        EveryNodeOwns(hash, vnodes, nodes);
      } else {
        NoPositions(hash, nodes);
      }
    }

    /** Later nodes take over positions that coincide.  A fresh node whose positions nobody has keeps the ring valid. */
    method AddNode(id: Node)
      modifies this
      ensures ring == Claim(old(ring), Positions(hash, id, vnodes), id) && nodes == old(nodes) + [id]
      ensures old(Valid()) ==> (Valid() <==> id !in old(nodes) && Disjoint(hash, vnodes, nodes))
    {
      for i := 0 to vnodes
        invariant ring == Claim(old(ring), Positions(hash, id, i), id) && nodes == old(nodes)
      {
        ring := ring[hash(VirtualNode(id, i)) := id];
      }
      nodes := nodes + [id];
      BuildOne(hash, vnodes, old(nodes), id);
      RepeatsAppended(old(nodes), id);
    }

    /** The node's positions are erased whoever owns them.  Removing a node of a valid ring, or one whose positions
        nobody has, keeps it valid; removing anything else does not. */
    method RemoveNode(id: Node)
      modifies this
      ensures ring == old(ring) - Positions(hash, id, vnodes) && nodes == Without(old(nodes), id)
      ensures old(Valid()) ==> (Valid() <==> id in old(nodes) || Positions(hash, id, vnodes) !! old(ring).Keys)
    {
      for i := 0 to vnodes
        invariant ring == old(ring) - Positions(hash, id, i) && nodes == old(nodes)
      {
        ring := ring - {hash(VirtualNode(id, i))};
      }
      nodes := Keep(nodes, id);
      ghost var valid := old(Valid());
      if valid { RemovalKeeps(hash, vnodes, old(nodes), id); }
    }

    /** None when the ring is empty, where the original throws. */
    method GetNode(key: Key) returns (owner: Option<Node>)
      ensures owner == if ring == map[] then None else Some(Owner(ring, hash(key)))
    {
      if ring == map[] { return None; }
      assert ring.Keys != {};
      var it := LowerBound(ring.Keys, hash(key));
      if it.None? { it := LowerBound(ring.Keys, 0); }
      assert it.value == Nearest(ring.Keys, hash(key));
      return Some(ring[it.value]);
    }

    /** The walk ends exactly when the ring has as many owners as the capped count asks for, which is always so on a
        valid ring; there it is the preference list of `count` nodes. */
    method GetNodes(key: Key, count: nat) returns (result: Option<seq<Node>>)
      requires Ends(count)
      ensures result == if ring == map[] then None else Some(PreferenceList(ring, hash(key), Min(count, |nodes|)))
      ensures ring != map[] ==> ListedAsMet(ring, hash(key), Min(count, |nodes|), result.value)
      ensures Valid() && ring != map[] ==> result == Some(PreferenceList(ring, hash(key), count))
    {
      if ring == map[] { return None; }
      var capped := Min(count, |nodes|);
      ghost var lap, o := LapAndOwners(ring, hash(key));
      var list := WalkClockwise(ring, hash(key), capped, lap, o);
      PrefixIsList(ring, hash(key), list);
      PreferenceListIff(ring, hash(key), capped, list);
      ghost var valid := Valid();
      if valid { ListIsCapped(hash, vnodes, nodes, hash(key), count); }
      return Some(list);
    }
  }

  lemma {:induction false} NoPositions(h: Hash, ids: seq<Node>)
    ensures Build(h, 0, ids) == map[]
  {
    if ids != [] { NoPositions(h, ids[..|ids| - 1]); }
  }

  lemma ListIsCapped(h: Hash, vnodes: nat, ids: seq<Node>, p: nat, count: nat)
    requires Disjoint(h, vnodes, ids) && NoRepeats(ids)
    ensures PreferenceList(Build(h, vnodes, ids), p, Min(count, |ids|)) == PreferenceList(Build(h, vnodes, ids), p, count)
  {
    BuildOwns(h, vnodes, ids);
    assert forall x :: x in Build(h, vnodes, ids).Values ==> x in ids;
    FewElements(Build(h, vnodes, ids).Values, ids);
    CappedList(Build(h, vnodes, ids), p, count, |ids|);
  }

  lemma RepeatsAppended(ids: seq<Node>, x: Node)
    ensures NoRepeats(ids) ==> (NoRepeats(ids + [x]) <==> x !in ids)
  {
    if x in ids {
      var i :| 0 <= i < |ids| && ids[i] == x;
      assert (ids + [x])[i] == (ids + [x])[|ids|];
    }
  }

  lemma RemovalKeeps(h: Hash, vnodes: nat, ids: seq<Node>, x: Node)
    requires Disjoint(h, vnodes, ids) && NoRepeats(ids)
    ensures NoRepeats(Without(ids, x)) && Disjoint(h, vnodes, Without(ids, x))
    ensures Build(h, vnodes, ids) - Positions(h, x, vnodes) == Build(h, vnodes, Without(ids, x))
            <==> x in ids || Positions(h, x, vnodes) !! Build(h, vnodes, ids).Keys
  {
    var r, ps := Build(h, vnodes, ids), Positions(h, x, vnodes);
    WithoutIsDisjoint(h, vnodes, ids, x);
    if x in ids || ps !! r.Keys {
      RemovalRebuilds(h, vnodes, ids, x);
    } else {
      NothingLeftOut(ids, x);
      var q :| q in ps && q in r.Keys;
      assert q !in (r - ps).Keys;
    }
  }

  // ---------- Histories of membership changes ----------

  datatype Change = Joins(id: Node) | Leaves(id: Node)

  function NodesAfter(cs: seq<Change>): seq<Node> {
    if cs == [] then []
    else
      var ids := NodesAfter(cs[..|cs| - 1]);
      match cs[|cs| - 1]
      case Joins(x) => ids + [x]
      case Leaves(x) => Without(ids, x)
  }

  function RingAfter(h: Hash, vnodes: nat, cs: seq<Change>): Ring {
    if cs == [] then map[]
    else
      var r := RingAfter(h, vnodes, cs[..|cs| - 1]);
      match cs[|cs| - 1]
      case Joins(x) => Claim(r, Positions(h, x, vnodes), x)
      case Leaves(x) => r - Positions(h, x, vnodes)
  }

  /** Only absent nodes join, with positions nobody has, and only present nodes leave. */
  ghost predicate Orderly(h: Hash, vnodes: nat, cs: seq<Change>) {
    cs == [] ||
    (var ids := NodesAfter(cs[..|cs| - 1]);
     Orderly(h, vnodes, cs[..|cs| - 1]) &&
     match cs[|cs| - 1]
     case Joins(x) => x !in ids && Disjoint(h, vnodes, ids + [x])
     case Leaves(x) => x in ids)
  }

  /** After every orderly history of joins and leaves the ring is the one its present nodes build, and `get_nodes` ends
      for every count. */
  lemma {:induction false} HistoryEnds(h: Hash, vnodes: nat, cs: seq<Change>, count: nat)
    requires Orderly(h, vnodes, cs) && vnodes > 0
    ensures var ids, r := NodesAfter(cs), RingAfter(h, vnodes, cs);
            NoRepeats(ids) && Disjoint(h, vnodes, ids) && r == Build(h, vnodes, ids) && Min(count, |ids|) <= |r.Values|
  {
    if cs != [] {
      var ids := NodesAfter(cs[..|cs| - 1]);
      HistoryEnds(h, vnodes, cs[..|cs| - 1], count);
      match cs[|cs| - 1]
      case Joins(x) =>
        BuildOne(h, vnodes, ids, x);
        RepeatsAppended(ids, x);
      case Leaves(x) => RemovalKeeps(h, vnodes, ids, x);
    }
    EveryNodeOwns(h, vnodes, NodesAfter(cs));
  }
}
