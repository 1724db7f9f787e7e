/** Everything at once: a client's bytes through the router, over a deployed ring, to backends that crash, and back. */
module WholeSystem {
  import opened KvSpec
  import opened Answers
  import opened History
  import opened Linearizability
  import opened HashRing
  import opened Failover
  import opened CrashStop
  import opened FaultTolerance
  import opened Deployment
  import opened Routing
  import opened RouterSteps
  import opened Wire
  import opened Chunking
  import opened RoundTrip
  import opened Server
  import opened Parsers
  import opened ReactorLoop
  import opened RouterLoop
  import opened RouterClient

  // ---------- One request ----------

  /** The nodes the failure table has given up. */
  function Down(c: Config, alive: map<Node, bool>): set<Node> {
    set n | n in c.nodes && !Up(alive, n)
  }

  /** After the steps `ls` the cluster is between requests and stands as `now` says; exactly the nodes given up have
      crashed; and the history stands for the map `m`. */
  ghost predicate Stands(c: Config, ls: seq<Label>, now: Outcome, m: Store) {
    && Run(c, CrashStop, WriterAlone, ls)
    && var s := After(c, ls);
       && s.stores == now.stores && s.alive == now.alive && s.ops == map[] && s.crashed == Down(c, now.alive)
       && now.stores.Keys == c.nodes && (forall n :: Up(now.alive, n) ==> n in c.nodes)
       && OneMap(s.log) == m
  }

  lemma OneMore(log: Log, p: nat)
    requires p < |log|
    ensures OneMap(log[..p + 1]) == if Point(log, p) then Exec(OneMap(log[..p]), log[log[p].id].req).0 else OneMap(log[..p])
  {
    assert log[..p + 1] == log[..p] + [log[p]];
    OneMapGrows(log[..p], log[p]);
    assert Point(log, p) == Point(log[..p + 1], p);
  }

  /** No first performance from `a` up to `b`: the map stays. */
  lemma {:induction false} QuietStretch(log: Log, a: nat, b: nat)
    requires a <= b <= |log| && forall p :: a <= p < b ==> !Point(log, p)
    ensures OneMap(log[..b]) == OneMap(log[..a])
  {
    if a < b {
      QuietStretch(log, a, b - 1);
      OneMore(log, b - 1);
    }
  }

  /** With one first performance from `a` on, at `p`, the map executes its request. */
  lemma OnePoint(log: Log, a: nat, p: nat)
    requires a <= p < |log| && Point(log, p) && forall q :: a <= q < |log| && q != p ==> !Point(log, q)
    ensures OneMap(log[..p]) == OneMap(log[..a])
    ensures OneMap(log) == Exec(OneMap(log[..a]), log[log[p].id].req).0
  {
    QuietStretch(log, a, p);
    OneMore(log, p);
    QuietStretch(log, p + 1, |log|);
    assert log[..|log|] == log;
  }

  /** When one request was invoked at the end of `log`, nobody else performed anything since, and it was answered
      without an error, the map answered it once. */
  lemma OneRequestOnTheMap(log: Log, log': Log, req: Request, resp: Response)
    requires LogShape(log') && PointsAnswer(log') && Legal(log') && Own(log + [Invoked(req)], log', |log|)
    requires log'[|log'| - 1] == Responded(|log|, resp) && !resp.Error?
    ensures (OneMap(log'), resp) == Exec(OneMap(log), req)
  {
    var id := |log|;
    assert log'[..id] == log && log'[id] == Invoked(req);
    var p := FirstPerformed(log', |log'| - 1);
    forall q | id <= q < |log'| && q != p ensures !Point(log', q) {
      assert log'[q].Served? ==> log'[q].id == id;
    }
    OnePoint(log', id, p);
    assert LegalAt(log', p);
  }

  lemma FirstPerformed(log: Log, j: nat) returns (p: nat)
    requires LogShape(log) && PointsAnswer(log) && j < |log| && log[j].Responded? && !log[j].resp.Error?
    ensures log[j].id < p < j && Point(log, p) && log[p].id == log[j].id && log[p].resp == log[j].resp
    ensures forall q :: 0 <= q < |log| && q != p ==> !FirstServe(log[q], log[j].id)
  {
    assert Accounted(log, j) && FirstServedWith(log, log[j].id, j, log[j].resp);
    p :| log[j].id < p < j && FirstServe(log[p], log[j].id) && log[p].resp == log[j].resp;
    assert Performed(log, p);
  }

  lemma GivenUp(c: Config, a: map<Node, bool>, a': map<Node, bool>)
    requires NoneUp(a, a') && forall n :: Up(a, n) ==> n in c.nodes
    ensures Down(c, a) <= Down(c, a') == Down(c, a) + Downed(a, a')
  {
  }

  /** Whatever the exchanges' fates, while fewer nodes are given up than a key has replicas the router's answer is the
      map's. */
  lemma RoutedIsOneMap(c: Config, ls: seq<Label>, now: Outcome, m: Store, req: Request, fates: nat -> Fate)
    returns (ls': seq<Label>)
    requires ValidConfig(c) && Stands(c, ls, now, m) && !req.Ping?
    requires var out := Routed(c.prefs(req.key), 0, req, now.stores, now.alive, None, fates);
             forall k :: |Down(c, out.alive)| < |c.prefs(k)|
    ensures var out := Routed(c.prefs(req.key), 0, req, now.stores, now.alive, None, fates);
            Stands(c, ls', out, Exec(m, req).0) && out.resp == Exec(m, req).1
  {
    var s := After(c, ls);
    var out := Routed(c.prefs(req.key), 0, req, now.stores, now.alive, None, fates);
    ls' := RoutingContinues(c, CrashStop, WriterAlone, ls, 0, req, fates);
    var s' := After(c, ls');
    GivenUp(c, s.alive, s'.alive);
    CrashStopRun(c, ls');
    FewCrashesAreInvisible(c, WriterAlone, ls');
    OneRequestOnTheMap(s.log, s'.log, req, out.resp);
    RoutedKeepsNodes(c.prefs(req.key), 0, req, now.stores, now.alive, None, fates);
  }

  // ---------- A client's whole stream ----------

  /** The cluster before anyone uses it. */
  ghost function Start(c: Config): Outcome {
    Outcome(map n | n in c.nodes :: map[], map n | n in c.nodes :: true, Pong)
  }

  lemma {:induction false} NobodyComesBack(prefs: seq<Node>, i: nat, req: Request, stores: map<Node, Store>,
                                           alive: map<Node, bool>, first: Option<Response>, fates: nat -> Fate)
    requires i <= |prefs| && forall j :: 0 <= j < |prefs| ==> prefs[j] in stores
    ensures NoneUp(alive, Routed(prefs, i, req, stores, alive, first, fates).alive)
    decreases |prefs| - i
  {
    if i < |prefs| {
      var n := prefs[i];
      var (s, r) := Exec(stores[n], req);
      if !Up(alive, n) {
        NobodyComesBack(prefs, i + 1, req, stores, alive, first, fates);
      } else if fates(i).Lost? {
        NobodyComesBack(prefs, i + 1, req, if fates(i).applied then stores[n := s] else stores, alive[n := false], first, fates);
      } else if IsWrite(req) {
        NobodyComesBack(prefs, i + 1, req, stores[n := s], alive, if first.None? then Some(r) else first, fates);
      }
    }
  }

  lemma {:induction false} SubsetIsNoLarger<T>(xs: set<T>, ys: set<T>)
    requires xs <= ys
    ensures |xs| <= |ys|
  {
    if xs != {} {
      var x :| x in xs;
      SubsetIsNoLarger(xs - {x}, ys - {x});
    }
  }

  lemma MoreAreDown(c: Config, now: Outcome, item: Item<Request>, fates: nat -> Fate)
    requires Backed(c, now.stores)
    ensures |Down(c, now.alive)| <= |Down(c, Handled(c, now, item, fates).alive)|
  {
    if item.Parsed? && !item.msg.Ping? {
      NobodyComesBack(c.prefs(item.msg.key), 0, item.msg, now.stores, now.alive, None, fates);
    }
    SubsetIsNoLarger(Down(c, now.alive), Down(c, Handled(c, now, item, fates).alive));
  }

  lemma HandledIsOneMap(c: Config, ls: seq<Label>, now: Outcome, m: Store, item: Item<Request>, fates: nat -> Fate)
    returns (ls': seq<Label>)
    requires ValidConfig(c) && Stands(c, ls, now, m)
    requires forall k :: |Down(c, Handled(c, now, item, fates).alive)| < |c.prefs(k)|
    ensures var next := Handled(c, now, item, fates);
            Stands(c, ls', next, Handle(m, item).0) && next.resp == Handle(m, item).1
  {
    if item.Parsed? && !item.msg.Ping? {
      ls' := RoutedIsOneMap(c, ls, now, m, item.msg, fates);
    } else {
      ls' := ls;
    }
  }

  lemma NothingYet(c: Config)
    ensures Stands(c, [], Start(c), map[])
  {
    assert Down(c, Start(c).alive) == {};
  }

  /** Handling a client's items, malformed ones included, is a crash-stop run, and the client is sent what one map would
      answer. */
  lemma {:induction false} AllHandledIsOneMap(c: Config, items: seq<Item<Request>>, fates: nat -> nat -> Fate)
    returns (ls: seq<Label>)
    requires ValidConfig(c)
    requires forall k :: |Down(c, HandledAll(c, Start(c), items, fates).0.alive)| < |c.prefs(k)|
    ensures var (out, sent) := HandledAll(c, Start(c), items, fates);
            Stands(c, ls, out, HandleAll(map[], items).0) && sent == HandleAll(map[], items).1
    decreases |items|
  {
    if items == [] {
      NothingYet(c);
      ls := [];
    } else {
      var n := |items| - 1;
      var (now, sent) := HandledAll(c, Start(c), items[..n], fates);
      assert items == items[..n] + [items[n]];
      MoreAreDown(c, now, items[n], fates(n));
      ls := AllHandledIsOneMap(c, items[..n], fates);
      ls := HandledIsOneMap(c, ls, now, HandleAll(map[], items[..n]).0, items[n], fates(n));
      HandleMore(map[], items[..n], items[n]);
    }
  }

  /** Every replica the router has not given up holds, of its keys, what the map holds. */
  ghost predicate ReplicasHold(c: Config, stores: map<Node, Store>, alive: map<Node, bool>, m: Store) {
    forall k, j :: 0 <= j < |c.prefs(k)| && Up(alive, c.prefs(k)[j]) && c.prefs(k)[j] in stores ==>
      Lookup(stores[c.prefs(k)[j]], k) == Lookup(m, k)
  }

  lemma StandingReplicasHold(c: Config, ls: seq<Label>, out: Outcome, m: Store)
    requires ValidConfig(c) && Stands(c, ls, out, m)
    ensures ReplicasHold(c, out.stores, out.alive, m)
  {
    CrashStopRefinement(c, ls);
    var s := After(c, ls);
    forall k, j | 0 <= j < |c.prefs(k)| && Up(out.alive, c.prefs(k)[j]) && c.prefs(k)[j] in out.stores
      ensures Lookup(out.stores[c.prefs(k)[j]], k) == Lookup(m, k)
    {
      assert !BeingWritten(s, k) && StoreOf(s, c.prefs(k)[j]) == out.stores[c.prefs(k)[j]];
    }
  }

  /** What was sent, what the parser keeps and what the surviving replicas hold is what a single server with an empty
      store makes of the same reads. */
  ghost predicate LikeOneServer(c: Config, chunks: seq<string>, stores: map<Node, Store>, alive: map<Node, bool>,
                                buffer: string, sent: string) {
    var server := Server.Serve(map[], chunks);
    server == Session(server.store, buffer, sent, false) && ReplicasHold(c, stores, alive, server.store)
  }

  /** One client over a deployed ring, whatever bytes it sends, however they are cut up, and whichever exchanges fail:
      as long as fewer nodes fail than a key has replicas, the cluster and its router are like one server. */
  lemma ClusterIsOneServer(c: Config, h: Hash, vnodes: nat, ids: seq<Node>, factor: nat, chunks: seq<string>,
                           fates: nat -> nat -> Fate)
    requires Deploys(c, h, vnodes, ids, factor) && ValidConfig(c) && ReadsFit("", chunks)
    ensures var d := FeedRequests(chunks); var (out, sent) := HandledAll(c, Start(c), d.outs, fates);
            d.Drained? && (|Down(c, out.alive)| < Replicas(factor, ids) ==>
                             LikeOneServer(c, chunks, out.stores, out.alive, d.rest, sent))
  {
    ParsersFrameWell();
    ClusterIsValid(c, h, vnodes, ids, factor);
    FeedReturnsIff(RequestFrame, MAX_COMMAND_LINE_LEN, "", chunks);
    ReadsAreOneFeed(RequestFrame, MAX_COMMAND_LINE_LEN, Session(map[], "", "", false), chunks);
    var d := FeedRequests(chunks);
    var (out, sent) := HandledAll(c, Start(c), d.outs, fates);
    if |Down(c, out.alive)| < Replicas(factor, ids) {
      var ls := AllHandledIsOneMap(c, d.outs, fates);
      StandingReplicasHold(c, ls, out, HandleAll(map[], d.outs).0);
      assert "" + sent == sent;
    }
  }

  /** The same of the objects: a router is started on the nodes, its ring built node by node, and one client is handled
      until it is gone. */
  method RunCluster(hash: Hash, vnodes: nat, ids: seq<Node>, factor: nat, chunks: seq<string>, fates: nat -> nat -> Fate,
                    cut: string -> seq<string>)
    returns (r: Router, p: IncrementalParser, sent: string)
    requires Deployable(hash, vnodes, ids) && ReadsFit("", chunks) && Cuts(cut)
    ensures Deploys(r.c, hash, vnodes, ids, factor)
    ensures |Down(r.c, r.detector.alive)| < Replicas(factor, ids) ==>
              LikeOneServer(r.c, chunks, r.stores, r.detector.alive, p.buffer, sent)
  {
    r := new Router(hash, vnodes, ids, factor);
    ClusterIsValid(r.c, hash, vnodes, ids, factor);
    assert Start(r.c) == Outcome(r.stores, r.detector.alive, Pong);
    ghost var last;
    p, sent, last := HandleClient(r, fates, cut, chunks);
    ClusterIsOneServer(r.c, hash, vnodes, ids, factor, chunks, fates);
  }

  /** Any pipeline of valid requests, cut up in any way, sent through the router to a cluster in which fewer nodes fail
      than a key has replicas, is answered with what one map answers, request by request: for every request what its
      key's last earlier write in the pipeline calls for; nothing stays in the router's parser; and however the network
      cuts up the answer, the client reads those responses back. */
  method RunPipeline(hash: Hash, vnodes: nat, ids: seq<Node>, factor: nat, rs: seq<Request>, chunks: seq<string>,
                     fates: nat -> nat -> Fate, cut: string -> seq<string>)
    returns (r: Router, p: IncrementalParser, sent: string)
    requires Deployable(hash, vnodes, ids) && Cuts(cut) && (forall i :: 0 <= i < |rs| ==> ValidRequest(rs[i]))
    requires Flatten(chunks) == EncodeAll(EncodeRequest, rs)
    ensures Deploys(r.c, hash, vnodes, ids, factor)
    ensures LikeOneMap(map[], rs, Replay(map[], rs).1)
    ensures |Down(r.c, r.detector.alive)| < Replicas(factor, ids) ==>
              && sent == EncodeAll(EncodeResponse, Replay(map[], rs).1) && p.buffer == ""
              && ReplicasHold(r.c, r.stores, r.detector.alive, Replay(map[], rs).0)
              && forall replies :: Flatten(replies) == sent ==>
                   FeedResponses(replies) == Drained(AllParsed(Replay(map[], rs).1), "")
  {
    PipelineFits(rs, chunks);
    PipelineIsServed(rs, chunks);
    ReplayAnswers(map[], rs, Replay(map[], rs).1);
    r, p, sent := RunCluster(hash, vnodes, ids, factor, chunks, fates, cut);
  }

  lemma PipelineIsServed(rs: seq<Request>, chunks: seq<string>)
    requires (forall i :: 0 <= i < |rs| ==> ValidRequest(rs[i])) && Flatten(chunks) == EncodeAll(EncodeRequest, rs)
    ensures Server.Serve(map[], chunks) == Session(Replay(map[], rs).0, "", EncodeAll(EncodeResponse, Replay(map[], rs).1), false)
    ensures forall replies :: Flatten(replies) == EncodeAll(EncodeResponse, Replay(map[], rs).1) ==>
              FeedResponses(replies) == Drained(AllParsed(Replay(map[], rs).1), "")
  {
    var sent := Server.Serve(map[], chunks).sent;
    assert [sent][1..] == [] && sent + "" == sent;
    EndToEnd(map[], rs, chunks, [sent]);
    RepliesAreSendable(map[], rs);
    forall replies | Flatten(replies) == EncodeAll(EncodeResponse, Replay(map[], rs).1)
      ensures FeedResponses(replies) == Drained(AllParsed(Replay(map[], rs).1), "")
    {
      PipelinedResponses(Replay(map[], rs).1, replies);
    }
  }

  /** A pipeline's bytes never overrun the parser, however they are cut up. */
  lemma PipelineFits(rs: seq<Request>, chunks: seq<string>)
    requires (forall i :: 0 <= i < |rs| ==> ValidRequest(rs[i])) && Flatten(chunks) == EncodeAll(EncodeRequest, rs)
    ensures ReadsFit("", chunks)
  {
    ParsersFrameWell();
    PipelinedRequests(rs, chunks);
    FeedReturnsIff(RequestFrame, MAX_COMMAND_LINE_LEN, "", chunks);
  }
}
