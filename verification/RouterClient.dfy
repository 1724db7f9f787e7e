/** A client of the router: bytes in, parsed, routed request by request, and every answer encoded back. */
module RouterClient {
  import opened KvSpec
  import opened Failover
  import opened Routing
  import opened Wire
  import opened Chunking
  import opened RoundTrip
  import opened Parsers
  import opened ReactorLoop
  import opened RouterLoop

  ghost predicate Backed(c: Config, stores: map<Node, Store>) {
    ValidConfig(c) && stores.Keys == c.nodes
  }

  /** One item of a client's stream: parse errors and PING are answered by the router itself. */
  function Handled(c: Config, now: Outcome, item: Item<Request>, fates: nat -> Fate): Outcome
    requires Backed(c, now.stores)
  {
    match item
    case Bad(m) => now.(resp := Error(m))
    case Parsed(Ping) => now.(resp := Pong)
    case Parsed(r) => Routed(c.prefs(r.key), 0, r, now.stores, now.alive, None, fates)
  }

  lemma {:induction false} RoutedKeepsNodes(prefs: seq<Node>, i: nat, req: Request, stores: map<Node, Store>,
                                            alive: map<Node, bool>, first: Option<Response>, fates: nat -> Fate)
    requires i <= |prefs| && forall j :: 0 <= j < |prefs| ==> prefs[j] in stores
    ensures Routed(prefs, i, req, stores, alive, first, fates).stores.Keys == stores.Keys
    decreases |prefs| - i
  {
    if i < |prefs| {
      var n := prefs[i];
      var (s, r) := Exec(stores[n], req);
      if !Up(alive, n) {
        RoutedKeepsNodes(prefs, i + 1, req, stores, alive, first, fates);
      } else if fates(i).Lost? {
        var stores' := if fates(i).applied then stores[n := s] else stores;
        RoutedKeepsNodes(prefs, i + 1, req, stores', alive[n := false], first, fates);
      } else if IsWrite(req) {
        RoutedKeepsNodes(prefs, i + 1, req, stores[n := s], alive, if first.None? then Some(r) else first, fates);
      }
    }
  }

  /** The items handled one after another, the answers encoded. `fates(x)` are the fates of request `x`'s exchanges. */
  ghost function HandledAll(c: Config, from: Outcome, items: seq<Item<Request>>, fates: nat -> nat -> Fate)
    : (r: (Outcome, string))
    requires Backed(c, from.stores)
    ensures r.0.stores.Keys == c.nodes
  {
    if items == [] then (from, "")
    else
      var n := |items| - 1;
      var (now, sent) := HandledAll(c, from, items[..n], fates);
      var next := Handled(c, now, items[n], fates(n));
      HandledKeepsNodes(c, now, items[n], fates(n));
      (next, sent + EncodeResponse(next.resp))
  }

  lemma HandledKeepsNodes(c: Config, now: Outcome, item: Item<Request>, fates: nat -> Fate)
    requires Backed(c, now.stores)
    ensures Handled(c, now, item, fates).stores.Keys == c.nodes
  {
    if item.Parsed? && !item.msg.Ping? {
      RoutedKeepsNodes(c.prefs(item.msg.key), 0, item.msg, now.stores, now.alive, None, fates);
    }
  }

  lemma HandledNext(c: Config, from: Outcome, items: seq<Item<Request>>, item: Item<Request>, fates: nat -> nat -> Fate)
    requires Backed(c, from.stores)
    ensures var (now, sent) := HandledAll(c, from, items, fates); var next := Handled(c, now, item, fates(|items|));
            HandledAll(c, from, items + [item], fates) == (next, sent + EncodeResponse(next.resp))
  {
    assert (items + [item])[..|items|] == items;
  }

  /** The router has handled `items` since it stood as `from`, sent `sent`, and answered the last of them with
      `last`. */
  ghost predicate HasHandled(r: Router, from: Outcome, items: seq<Item<Request>>, fates: nat -> nat -> Fate, sent: string,
                             last: Response)
    requires Backed(r.c, from.stores)
    reads r, r.detector
  {
    HandledAll(r.c, from, items, fates) == (Outcome(r.stores, r.detector.alive, last), sent)
  }

  /** One turn of the drain loop: parse, and unless more bytes are needed answer. */
  method AnswerNext(r: Router, p: IncrementalParser, fates: nat -> Fate, cut: string -> seq<string>, before: string,
                    ghost all: Drained<Request>, ghost from: Outcome, ghost done: seq<Item<Request>>,
                    ghost allFates: nat -> nat -> Fate, ghost last: Response)
    returns (more: bool, sent: string, ghost done': seq<Item<Request>>, ghost last': Response)
    requires r.Valid() && Backed(r.c, from.stores) && Cuts(cut) && HasHandled(r, from, done, allFates, before, last)
    requires all.Drained? && all == Prepend(done, DrainRequests(p.buffer)) && fates == allFates(|done|)
    modifies r, r.detector, p
    ensures r.Valid() && HasHandled(r, from, done', allFates, sent, last')
    ensures if more then |p.buffer| < |old(p.buffer)| && |done'| == |done| + 1 && all == Prepend(done', DrainRequests(p.buffer))
            else done' == done && all == Drained(done, p.buffer)
  {
    ParsersFrameWell();
    ghost var buffer, error := p.buffer, p.errorMessage;
    var status, req := p.TryParseRequest();
    DrainCall(RequestFrame, MAX_COMMAND_LINE_LEN, all, done, buffer,
              "command line too long", error, status, req, p.buffer, p.errorMessage);
    if status == NeedMore { return false, before, done, last; }
    ParsedIsValid(buffer, "command line too long", error, status, req, p.buffer, p.errorMessage);
    HandledNext(r.c, from, done, ItemOf(status, req, p.errorMessage), allFates);
    var resp := AnswerClient(r, status, req, p.errorMessage, fates, cut, last);
    return true, before + EncodeResponse(resp), done + [ItemOf(status, req, p.errorMessage)], resp;
  }

  /** The drain loop of the router's `handle_client`, after the items `done`.  It returns exactly when the last command
      fits. */
  method DrainClient(r: Router, p: IncrementalParser, fates: nat -> nat -> Fate, cut: string -> seq<string>, x: nat,
                     before: string, ghost from: Outcome, ghost done: seq<Item<Request>>, ghost last: Response)
    returns (x': nat, sent: string, ghost last': Response)
    requires r.Valid() && Backed(r.c, from.stores) && Cuts(cut) && LastCommandFits(p.buffer)
    requires x == |done| && HasHandled(r, from, done, fates, before, last)
    modifies r, r.detector, p
    ensures r.Valid()
    ensures var d := DrainRequests(old(p.buffer));
            d.Drained? && p.buffer == d.rest && x' == |done + d.outs| && HasHandled(r, from, done + d.outs, fates, sent, last')
  {
    DrainLoopReturns(p.buffer);
    ghost var all, items := Prepend(done, DrainRequests(p.buffer)), done;
    x', sent, last' := x, before, last;
    while true
      invariant r.Valid() && x' == |items| && HasHandled(r, from, items, fates, sent, last')
      invariant all == Prepend(items, DrainRequests(p.buffer))
      decreases |p.buffer|
    {
      var more;
      more, sent, items, last' := AnswerNext(r, p, fates(x'), cut, sent, all, from, items, fates, last');
      if !more { break; }
      x' := x' + 1;
    }
  }

  function Fed(d: Drained<Request>, chunks: seq<string>): Drained<Request> {
    ParsersFrameWell();
    FeedAll(RequestFrame, MAX_COMMAND_LINE_LEN, d, chunks)
  }

  lemma NextFed(items: seq<Item<Request>>, buffer: string, chunk: string, later: seq<string>)
    requires Fed(Drained(items, buffer), [chunk] + later).Drained?
    ensures LastCommandFits(buffer + chunk)
    ensures Fed(Drained(items, buffer), [chunk] + later) == Fed(Prepend(items, DrainRequests(buffer + chunk)), later)
  {
    ParsersFrameWell();
    assert ([chunk] + later)[1..] == later;
    var d := Prepend(items, DrainRequests(buffer + chunk));
    assert d.Stuck? ==> Fed(d, later) == d;
    DrainReturnsIff(RequestFrame, MAX_COMMAND_LINE_LEN, buffer + chunk);
  }

  /** One read of the router's `handle_client`: feed the parser and drain it.  `whole` is what the parser makes of all
      the reads. */
  method ReadOnce(r: Router, p: IncrementalParser, fates: nat -> nat -> Fate, cut: string -> seq<string>, x: nat,
                  before: string, chunk: string, ghost later: seq<string>, ghost whole: Drained<Request>,
                  ghost from: Outcome, ghost done: seq<Item<Request>>, ghost last: Response)
    returns (x': nat, sent: string, ghost done': seq<Item<Request>>, ghost last': Response)
    requires r.Valid() && Backed(r.c, from.stores) && Cuts(cut) && x == |done| && HasHandled(r, from, done, fates, before, last)
    requires whole.Drained? && Fed(Drained(done, p.buffer), [chunk] + later) == whole
    modifies r, r.detector, p
    ensures r.Valid() && x' == |done'| && HasHandled(r, from, done', fates, sent, last')
    ensures Fed(Drained(done', p.buffer), later) == whole
  {
    NextFed(done, p.buffer, chunk, later);
    done' := done + DrainRequests(p.buffer + chunk).outs;
    p.Feed(chunk);
    x', sent, last' := DrainClient(r, p, fates, cut, x, before, from, done, last);
  }

  /** The router's `handle_client`: read, feed and drain until the client is gone.  The chunks are what the reads
      deliver. It returns exactly when after each read the last command fits. */
  method HandleClient(r: Router, fates: nat -> nat -> Fate, cut: string -> seq<string>, chunks: seq<string>)
    returns (p: IncrementalParser, sent: string, ghost last: Response)
    requires r.Valid() && ValidConfig(r.c) && Cuts(cut) && ReadsFit("", chunks)
    modifies r, r.detector
    ensures r.Valid()
    ensures var d := FeedRequests(chunks);
            && d.Drained? && p.buffer == d.rest
            && HandledAll(r.c, Outcome(old(r.stores), old(r.detector.alive), Pong), d.outs, fates)
               == (Outcome(r.stores, r.detector.alive, last), sent)
  {
    FedFromTheStart(chunks);
    ghost var whole := FeedRequests(chunks);
    ghost var from, items: seq<Item<Request>> := Outcome(r.stores, r.detector.alive, Pong), [];
    p := new IncrementalParser();
    sent, last := "", Pong;
    NothingHandled(r.c, from, fates);
    var i, x := 0, 0;
    while i < |chunks|
      invariant i <= |chunks| && x == |items| && r.Valid() && HasHandled(r, from, items, fates, sent, last)
      invariant Fed(Drained(items, p.buffer), chunks[i..]) == whole
    {
      HeadAndTail(chunks, i);
      x, sent, items, last := ReadOnce(r, p, fates, cut, x, sent, chunks[i], chunks[i + 1..], whole, from, items, last);
      i := i + 1;
    }
    FedNothing(Drained(items, p.buffer), chunks[i..]);
  }

  lemma FedFromTheStart(chunks: seq<string>)
    requires ReadsFit("", chunks)
    ensures FeedRequests(chunks).Drained? && Fed(Drained([], ""), chunks) == FeedRequests(chunks)
  {
    ParsersFrameWell();
    FeedReturnsIff(RequestFrame, MAX_COMMAND_LINE_LEN, "", chunks);
  }

  lemma FedNothing(d: Drained<Request>, chunks: seq<string>)
    requires chunks == []
    ensures Fed(d, chunks) == d
  {
  }

  lemma NothingHandled(c: Config, from: Outcome, fates: nat -> nat -> Fate)
    requires Backed(c, from.stores)
    ensures HandledAll(c, from, [], fates) == (from, "")
  {
  }

  lemma ParsedIsValid(buffer: string, overlong: string, error: string, status: ParseStatus, req: Option<Request>,
                      after: string, error': string)
    requires Called(RequestFrame(buffer), overlong, buffer, error, status, req, after, error')
    ensures status == Complete ==> req.Some? && ValidRequest(req.value)
  {
    if status == Complete { AcceptedIsValid(buffer); }
  }

  method AnswerClient(r: Router, status: ParseStatus, req: Option<Request>, error: string, fates: nat -> Fate,
                      cut: string -> seq<string>, ghost last: Response)
    returns (resp: Response)
    requires r.Valid() && ValidConfig(r.c) && Cuts(cut) && (status == Complete ==> req.Some? && ValidRequest(req.value))
    modifies r, r.detector
    ensures r.Valid()
    ensures Outcome(r.stores, r.detector.alive, resp)
            == Handled(r.c, Outcome(old(r.stores), old(r.detector.alive), last), ItemOf(status, req, error), fates)
  {
    if status != Complete { return Error(error); }
    if req.value.Ping? { return Pong; }
    if req.value.Get? {
      resp := r.RouteRead(req.value, fates, cut);
    } else {
      resp := r.RouteWrite(req.value, fates, cut);
    }
  }
}
