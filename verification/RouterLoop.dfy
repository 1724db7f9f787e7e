/** The router's request loops: one client-handling thread, its cached backend connections and the failure table, down
    to the bytes of each exchange. */
module RouterLoop {
  import opened KvSpec
  import opened Failover
  import opened Routing
  import opened Wire
  import opened Chunking
  import opened RoundTrip
  import opened Server
  import opened Parsers
  import opened HashRing
  import opened RingObject
  import opened Deployment

  // ---------- One exchange ----------

  lemma EncodeOne<T>(enc: T -> string, m: T)
    ensures EncodeAll(enc, [m]) == enc(m)
  {
    assert [m][1..] == [];
    assert enc(m) + "" == enc(m);
  }

  lemma ReplayOne(s: Store, r: Request)
    ensures Replay(s, [r]) == (Exec(s, r).0, [Exec(s, r).1])
  {
    assert [r][1..] == [];
    assert [Exec(s, r).1] + [] == [Exec(s, r).1];
  }

  /** However the network cuts up the request and the reply, one exchange over a connection that is between exchanges is
      one request on the backend's map, and leaves the connection between exchanges: nothing is left in the backend's
      parser, nor in the router's.  What the router sends on to its client is byte for byte what the backend sent. */
  lemma ExchangeIsExec(s: Store, r: Request, pieces: seq<string>, replies: seq<string>)
    requires Bounded(s) && ValidRequest(r) && Flatten(pieces) == EncodeRequest(r)
    requires Flatten(replies) == Serve(s, pieces).sent && forall i :: 0 <= i < |replies| ==> replies[i] != ""
    ensures Serve(s, pieces) == Session(Exec(s, r).0, "", EncodeResponse(Exec(s, r).1), false)
    ensures Awaited(ResponseFrame, "", replies, 0) == Got(Exec(s, r).1, "", |replies|)
    ensures EncodeResponse(Awaited(ResponseFrame, "", replies, 0).resp) == Flatten(replies)
    ensures Bounded(Exec(s, r).0)
  {
    EncodeOne(EncodeRequest, r);
    ReplayOne(s, r);
    EndToEnd(s, [r], pieces, replies);
    EncodeOne(EncodeResponse, Exec(s, r).1);
    RepliesAreSendable(s, [r]);
    OneInFlight(Exec(s, r).1, replies);
  }

  // ---------- The failure table ----------

  class FailureDetector {
    const nodes: seq<Node>
    var alive: map<Node, bool>

    constructor (nodes: seq<Node>)
      ensures this.nodes == nodes && alive == map n | n in nodes :: true
    {
      this.nodes := nodes;
      alive := map n | n in nodes :: true;
    }

    method IsAlive(n: Node) returns (up: bool)
      ensures up == Up(alive, n)
    {
      return if n in alive then alive[n] else false;
    }

    method MarkDown(n: Node)
      modifies this
      ensures alive == old(alive)[n := false]
    {
      alive := alive[n := false];
    }

    method MarkUp(n: Node)
      modifies this
      ensures alive == old(alive)[n := true]
    {
      alive := alive[n := true];
    }

    /** One cycle of the heartbeat loop; `ping` is what each ping reports, `running` the stop flag as read before each
        of them.  The table afterwards says of the nodes that were pinged, up to the first stop, what their pings
        reported, and of all others what it said before. */
    method Sweep(ping: Node -> bool, running: nat -> bool) returns (pinged: nat)
      modifies this
      ensures pinged <= |nodes| && (forall i :: 0 <= i < pinged ==> running(i)) && (pinged < |nodes| ==> !running(pinged))
      ensures forall n :: n in nodes[..pinged] ==> Up(alive, n) == ping(n)
      ensures forall n :: n !in nodes[..pinged] ==> (n in alive <==> n in old(alive)) && Up(alive, n) == old(Up(alive, n))
    {
      pinged := 0;
      while pinged < |nodes|
        invariant pinged <= |nodes| && forall i :: 0 <= i < pinged ==> running(i)
        invariant forall n :: n in nodes[..pinged] ==> Up(alive, n) == ping(n)
        invariant forall n :: n !in nodes[..pinged] ==> (n in alive <==> n in old(alive)) && Up(alive, n) == old(Up(alive, n))
      {
        if !running(pinged) { break; }
        assert nodes[..pinged + 1] == nodes[..pinged] + [nodes[pinged]];
        if ping(nodes[pinged]) {
          MarkUp(nodes[pinged]);
        } else {
          MarkDown(nodes[pinged]);
        }
        pinged := pinged + 1;
      }
    }
  }

  // ---------- The loops ----------

  /** A way for the network to cut up bytes. */
  ghost predicate Cuts(cut: string -> seq<string>) {
    forall b :: Flatten(cut(b)) == b && forall i :: 0 <= i < |cut(b)| ==> cut(b)[i] != ""
  }

  /** The bytes of one exchange: the backend parses and handles what it gets, read by read, and the reply is awaited
      behind whatever the connection still holds. */
  method RunExchange(store: Store, req: Request, inbox: string, cut: string -> seq<string>) returns (s: Store, e: Exchange)
    requires Bounded(store) && ValidRequest(req) && Cuts(cut) && inbox == ""
    ensures s == Exec(store, req).0 && Bounded(s)
    ensures e.Got? && e.resp == Exec(store, req).1 && e.left == ""
  {
    var pieces := cut(EncodeRequest(req));
    var backend := Serve(store, pieces);
    assert inbox + backend.sent == backend.sent;
    ExchangeIsExec(store, req, pieces, cut(backend.sent));
    e := AwaitResponse(cut(inbox + backend.sent));
    s := backend.store;
  }

  class Router {
    const ring: ConsistentHashRing
    const factor: nat
    const detector: FailureDetector
    /** The placement the ring stands for. */
    ghost const c: Config
    /** What the backends hold. */
    var stores: map<Node, Store>
    /** The cached connections, each with the bytes that arrived on it and were not read. */
    var conns: map<Node, string>

    /** Every backend holds only values the protocol can send, and every cached connection is between exchanges. */
    ghost predicate Clean()
      reads this
    {
      && stores.Keys == c.nodes
      && (forall n :: n in stores ==> Bounded(stores[n]))
      && (forall n :: n in conns ==> conns[n] == "")
    }

    /** The ring is valid and is what places the keys. */
    ghost predicate Placing()
      reads ring
    {
      ring.Valid() && Deploys(c, ring.hash, ring.vnodes, ring.nodes, factor)
    }

    ghost predicate Valid()
      reads this, ring
    {
      Placing() && Clean()
    }

    constructor (hash: Hash, vnodes: nat, ids: seq<Node>, factor: nat)
      requires Deployable(hash, vnodes, ids)
      ensures Valid() && fresh(ring) && fresh(detector) && this.factor == factor && conns == map[]
      ensures Deploys(c, hash, vnodes, ids, factor) && stores == map n | n in c.nodes :: map[]
      ensures detector.alive == map n | n in ids :: true
    {
      var built := BuildRing(hash, vnodes, ids);
      ConfigOfDeploys(hash, vnodes, ids, factor);
      ring := built;
      this.factor := factor;
      detector := new FailureDetector(ids);
      this.c := ConfigOf(hash, vnodes, ids, factor);
      stores := map n | n in ids :: map[];
      conns := map[];
    }

    /** The replicas the ring gives a key. */
    method Preference(key: Key) returns (prefs: seq<Node>)
      requires ring.Valid() && Deploys(c, ring.hash, ring.vnodes, ring.nodes, factor)
      ensures prefs == c.prefs(key)
    {
      var count := if factor == 0 then 1 else factor;
      ring.ValidEnds(count);
      assert PlacedBy(c, key, ring.hash, ring.vnodes, ring.nodes, factor);
      KeyIsPlaced(c, key, ring.hash, ring.vnodes, ring.nodes, factor);
      var list := ring.GetNodes(key, count);
      return list.value;
    }

    /** A connection, and `send_request` on it. */
    method SendRequest(n: Node, req: Request, fate: Fate, cut: string -> seq<string>) returns (r: Option<Response>)
      requires Clean() && n in c.nodes && ValidRequest(req) && Cuts(cut)
      modifies this
      ensures stores == if fate.Delivered? || fate.applied then old(stores)[n := Exec(old(stores)[n], req).0] else old(stores)
      ensures forall m :: m in stores ==> Bounded(stores[m])
      ensures conns == old(conns)[n := if fate.Delivered? then "" else fate.stray]
      ensures r == if fate.Delivered? then Some(Exec(old(stores)[n], req).1) else None
    {
      Connect(n);
      var s, e := RunExchange(stores[n], req, conns[n], cut);
      if fate.Delivered? || fate.applied { stores := stores[n := s]; }
      conns := conns[n := if fate.Lost? then fate.stray else e.left];
      return if fate.Lost? then None else Some(e.resp);
    }

    /** `backend_connection`: a cached connection, or a new one with nothing on it. */
    method Connect(n: Node)
      requires Clean()
      modifies `conns
      ensures conns == old(conns)[n := ""]
    {
      if n !in conns {
        conns := conns[n := ""];
      }
    }

    /** One turn of either loop: ask the failure table, exchange, and on failure mark the node down and drop its
        connection. */
    method TryReplica(n: Node, req: Request, fate: Fate, cut: string -> seq<string>) returns (r: Option<Response>)
      requires Clean() && n in c.nodes && ValidRequest(req) && Cuts(cut)
      modifies this, detector
      ensures Clean()
      ensures Tried(old(stores), old(detector.alive), n, req, fate, stores, detector.alive, r)
    {
      var up := detector.IsAlive(n);
      if !up { return None; }
      r := SendRequest(n, req, fate, cut);
      if r.None? {
        detector.MarkDown(n);
        conns := conns - {n};
      }
    }

    /** `route_write`. */
    method RouteWrite(req: Request, fates: nat -> Fate, cut: string -> seq<string>) returns (resp: Response)
      requires Valid() && ValidConfig(c) && IsWrite(req) && ValidRequest(req) && Cuts(cut)
      modifies this, detector
      ensures Valid()
      ensures Outcome(stores, detector.alive, resp)
              == Routed(c.prefs(req.key), 0, req, old(stores), old(detector.alive), None, fates)
    {
      var prefs := Preference(req.key);
      ghost var all := Routed(prefs, 0, req, stores, detector.alive, None, fates);
      var first := None;
      for i := 0 to |prefs|
        invariant Clean() && Routed(prefs, i, req, stores, detector.alive, first, fates) == all
      {
        ghost var stores0, alive := stores, detector.alive;
        var r := TryReplica(prefs[i], req, fates(i), cut);
        TriedWrite(prefs, i, req, stores0, alive, first, fates, stores, detector.alive, r);
        if r.Some? && first.None? { first := r; }
      }
      if first.None? { return NoLiveReplica(|prefs|); }
      return first.value;
    }

    /** `route_read`. */
    method RouteRead(req: Request, fates: nat -> Fate, cut: string -> seq<string>) returns (resp: Response)
      requires Valid() && ValidConfig(c) && req.Get? && ValidRequest(req) && Cuts(cut)
      modifies this, detector
      ensures Valid() && stores == old(stores)
      ensures Outcome(stores, detector.alive, resp)
              == Routed(c.prefs(req.key), 0, req, old(stores), old(detector.alive), None, fates)
    {
      var prefs := Preference(req.key);
      ghost var all := Routed(prefs, 0, req, stores, detector.alive, None, fates);
      for i := 0 to |prefs|
        invariant Clean() && stores == old(stores)
        invariant Routed(prefs, i, req, stores, detector.alive, None, fates) == all
      {
        ghost var alive := detector.alive;
        var r := TryReplica(prefs[i], req, fates(i), cut);
        TriedRead(prefs, i, req, old(stores), alive, fates, stores, detector.alive, r);
        if r.Some? { return r.value; }
      }
      return NoLiveReplica(|prefs|);
    }
  }

  /** What one turn does. */
  predicate Tried(stores: map<Node, Store>, alive: map<Node, bool>, n: Node, req: Request, fate: Fate,
                  stores': map<Node, Store>, alive': map<Node, bool>, r: Option<Response>)
    requires n in stores
  {
    var (s, resp) := Exec(stores[n], req);
    if !Up(alive, n) then stores' == stores && alive' == alive && r == None
    else if fate.Delivered? then stores' == stores[n := s] && alive' == alive && r == Some(resp)
    else stores' == (if fate.applied then stores[n := s] else stores) && alive' == alive[n := false] && r == None
  }

  lemma TriedWrite(prefs: seq<Node>, i: nat, req: Request, stores: map<Node, Store>, alive: map<Node, bool>,
                   first: Option<Response>, fates: nat -> Fate, stores': map<Node, Store>, alive': map<Node, bool>,
                   r: Option<Response>)
    requires i < |prefs| && (forall j :: 0 <= j < |prefs| ==> prefs[j] in stores) && IsWrite(req)
    requires Tried(stores, alive, prefs[i], req, fates(i), stores', alive', r)
    ensures forall j :: 0 <= j < |prefs| ==> prefs[j] in stores'
    ensures Routed(prefs, i, req, stores, alive, first, fates)
            == Routed(prefs, i + 1, req, stores', alive', if r.Some? && first.None? then r else first, fates)
  {
  }

  lemma TriedRead(prefs: seq<Node>, i: nat, req: Request, stores: map<Node, Store>, alive: map<Node, bool>,
                  fates: nat -> Fate, stores': map<Node, Store>, alive': map<Node, bool>, r: Option<Response>)
    requires i < |prefs| && (forall j :: 0 <= j < |prefs| ==> prefs[j] in stores) && req.Get?
    requires Tried(stores, alive, prefs[i], req, fates(i), stores', alive', r)
    ensures stores' == stores
    ensures Routed(prefs, i, req, stores, alive, None, fates)
            == if r.Some? then Outcome(stores, alive', r.value) else Routed(prefs, i + 1, req, stores, alive', None, fates)
  {
    assert stores[prefs[i] := stores[prefs[i]]] == stores;
  }

  /** The router's ring: every node added in turn. */
  method BuildRing(hash: Hash, vnodes: nat, ids: seq<Node>) returns (ring: ConsistentHashRing)
    ensures fresh(ring) && ring.hash == hash && ring.vnodes == vnodes && ring.nodes == ids
    ensures ring.ring == Build(hash, vnodes, ids)
  {
    ring := new ConsistentHashRing(hash, vnodes);
    for i := 0 to |ids|
      invariant fresh(ring) && ring.hash == hash && ring.vnodes == vnodes
      invariant ring.nodes == ids[..i] && ring.ring == Build(hash, vnodes, ids[..i])
    {
      assert ids[..i + 1] == ids[..i] + [ids[i]];
      BuildOne(hash, vnodes, ids[..i], ids[i]);
      ring.AddNode(ids[i]);
    }
    assert ids[..|ids|] == ids;
  }
}
