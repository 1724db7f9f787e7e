/** One reactor thread: draining a connection's parser, servicing a readable client, and the pass over the poll set that
    removes entries while it walks. */
module ReactorLoop {
  import opened KvSpec
  import opened Wire
  import opened Chunking
  import opened RoundTrip
  import opened Server
  import opened Parsers
  import opened StripedStore

  // ---------- Requests ----------

  /** `handle_request`: the reply, encoded. */
  method HandleRequest(kv: KVStore, req: Request) returns (reply: string)
    requires kv.Valid()
    modifies kv`size, kv`contents, kv.shards
    ensures kv.Valid()
    ensures kv.contents == Exec(old(kv.contents), req).0 && reply == EncodeResponse(Exec(old(kv.contents), req).1)
    ensures req.Set? ==> reply == "OK\n" && kv.contents == old(kv.contents)[req.key := req.value]
    ensures req.Delete? ==> reply == (if req.key in old(kv.contents) then "DELETED\n" else "NOT_FOUND\n")
                            && kv.contents == old(kv.contents) - {req.key}
    ensures req.Get? && req.key !in old(kv.contents) ==> reply == "NOT_FOUND\n"
    ensures req.Get? || req.Ping? ==> kv.contents == old(kv.contents)
  {
    match req
    case Get(key) =>
      var found := kv.Get(key);
      return EncodeResponse(if found.Some? then ValueIs(found.value) else NotFound);
    case Set(key, value) =>
      kv.Set(key, value);
      return EncodeResponse(Ok);
    case Delete(key) =>
      var removed := kv.Remove(key);
      assert !removed ==> kv.contents == old(kv.contents);
      return EncodeResponse(if removed then Deleted else NotFound);
    case Ping =>
      return EncodeResponse(Pong);
  }

  lemma {:induction false} HandleMore(s: Store, outs: seq<Item<Request>>, out: Item<Request>)
    ensures var x := HandleAll(s, outs); var y := Handle(x.0, out);
            HandleAll(s, outs + [out]) == (y.0, x.1 + EncodeResponse(y.1))
  {
    var x := HandleAll(s, outs);
    HandleInTwo(s, outs, [out]);
    HandleOne(x.0, out);
  }

  lemma HandleOne(s: Store, out: Item<Request>)
    ensures HandleAll(s, [out]) == (Handle(s, out).0, EncodeResponse(Handle(s, out).1))
  {
    assert [out][1..] == [];
    assert EncodeResponse(Handle(s, out).1) + "" == EncodeResponse(Handle(s, out).1);
  }

  /** The item a parser call stands for. */
  function ItemOf(status: ParseStatus, req: Option<Request>, error: string): Item<Request>
    requires status == Complete ==> req.Some?
  {
    if status == Complete then Parsed(req.value) else Bad(error)
  }

  /** The body of the drain loop: answer a parse error, or handle the request. */
  method Answer(kv: KVStore, status: ParseStatus, req: Option<Request>, error: string) returns (reply: string)
    requires kv.Valid() && (status == Complete ==> req.Some?)
    modifies kv`size, kv`contents, kv.shards
    ensures kv.Valid()
    ensures var h := Handle(old(kv.contents), ItemOf(status, req, error)); kv.contents == h.0 && reply == EncodeResponse(h.1)
  {
    if status == Complete {
      reply := HandleRequest(kv, req.value);
    } else {
      reply := EncodeResponse(Error(error));
    }
  }

  /** Part way through draining: the items `done` are out and answered with `sent`, leaving the store at `now`. */
  ghost predicate PartWay(f: Framer<Request>, max: nat, from: Store, all: Drained<Request>, done: seq<Item<Request>>,
                          buffer: string, now: Store, sent: string)
    requires Framing(f, max)
  {
    all == Prepend(done, Drain(f, max, buffer)) && HandleAll(from, done) == (now, sent)
  }

  lemma PartWayStart(f: Framer<Request>, max: nat, from: Store, buffer: string)
    requires Framing(f, max)
    ensures PartWay(f, max, from, Drain(f, max, buffer), [], buffer, from, "")
  {
    assert Prepend([], Drain(f, max, buffer)) == Drain(f, max, buffer);
  }

  lemma PartWayCall(f: Framer<Request>, max: nat, from: Store, all: Drained<Request>, done: seq<Item<Request>>,
                    buffer: string, now: Store, sent: string,
                    overlong: string, error: string, status: ParseStatus, req: Option<Request>, after: string, error': string)
    requires Framing(f, max) && PartWay(f, max, from, all, done, buffer, now, sent) && all.Drained?
    requires Called(f(buffer), overlong, buffer, error, status, req, after, error')
    ensures if status == NeedMore then all == Drained(done, after) && after == buffer
            else (status == Complete ==> req.Some?) && |after| < |buffer|
                 && var h := Handle(now, ItemOf(status, req, error'));
                    PartWay(f, max, from, all, done + [ItemOf(status, req, error')], after, h.0, sent + EncodeResponse(h.1))
  {
    DrainCall(f, max, all, done, buffer, overlong, error, status, req, after, error');
    if status != NeedMore { HandleMore(from, done, ItemOf(status, req, error')); }
  }

  lemma DrainCall(f: Framer<Request>, max: nat, all: Drained<Request>, done: seq<Item<Request>>, buffer: string,
                  overlong: string, error: string, status: ParseStatus, req: Option<Request>, after: string, error': string)
    requires Framing(f, max) && all == Prepend(done, Drain(f, max, buffer)) && all.Drained?
    requires Called(f(buffer), overlong, buffer, error, status, req, after, error')
    ensures if status == NeedMore then all == Drained(done, after) && after == buffer
            else (status == Complete ==> req.Some?) && |after| < |buffer|
                 && all == Prepend(done + [ItemOf(status, req, error')], Drain(f, max, after))
  {
    assert FramesWell(f, max, buffer);
    match f(buffer)
    case Took(out, n) =>
      assert out == ItemOf(status, req, error');
      DrainTook(f, max, buffer, out, n);
      PrependTwice(done, [out], Drain(f, max, after));
    case _ =>
      NothingMore(done, buffer);
  }

  lemma DrainTook(f: Framer<Request>, max: nat, buffer: string, out: Item<Request>, n: nat)
    requires Framing(f, max) && f(buffer) == Took(out, n) && n <= |buffer|
    ensures Drain(f, max, buffer) == Prepend([out], Drain(f, max, buffer[n..]))
  {
  }

  lemma NothingMore(done: seq<Item<Request>>, buffer: string)
    ensures Prepend(done, Drained([], buffer)) == Drained(done, buffer)
  {
    assert done + [] == done;
  }

  /** The drain loop of `service_client`.  It returns exactly when the last command fits; otherwise it answers the
      overlong line with the same error forever. */
  method DrainParser(p: IncrementalParser, kv: KVStore) returns (sent: string)
    requires kv.Valid() && LastCommandFits(p.buffer)
    modifies p, kv`size, kv`contents, kv.shards
    ensures kv.Valid()
    ensures var d := DrainRequests(old(p.buffer));
            d.Drained? && p.buffer == d.rest && HandleAll(old(kv.contents), d.outs) == (kv.contents, sent)
  {
    ParsersFrameWell();
    DrainLoopReturns(p.buffer);
    ghost var all, done: seq<Item<Request>>, from := DrainRequests(p.buffer), [], kv.contents;
    sent := "";
    PartWayStart(RequestFrame, MAX_COMMAND_LINE_LEN, from, p.buffer);
    while true
      invariant kv.Valid() && PartWay(RequestFrame, MAX_COMMAND_LINE_LEN, from, all, done, p.buffer, kv.contents, sent)
      decreases |p.buffer|
    {
      ghost var buffer, error, now := p.buffer, p.errorMessage, kv.contents;
      var status, req := p.TryParseRequest();
      PartWayCall(RequestFrame, MAX_COMMAND_LINE_LEN, from, all, done, buffer, now, sent,
                  "command line too long", error, status, req, p.buffer, p.errorMessage);
      if status == NeedMore { break; }
      var reply := Answer(kv, status, req, p.errorMessage);
      sent := sent + reply;
      done := done + [ItemOf(status, req, p.errorMessage)];
    }
  }

  // ---------- Servicing one readable client ----------

  const READ_SIZE := 4096

  /** What one non-blocking read can report. */
  datatype ReadResult = Data(bytes: string) | EndOfFile | WouldBlock | Interrupted | Broken

  function Read(c: Session, bytes: string): Session {
    ParsersFrameWell();
    OnRead(RequestFrame, MAX_COMMAND_LINE_LEN, c, bytes)
  }

  /** Read until the socket has no more for now; a full buffer means there may be more.  The flag says whether the
      connection is to be closed.  Beyond the end of `script` reads would block. */
  function Serviced(c: Session, script: seq<ReadResult>): (Session, bool)
    decreases script
  {
    if c.stuck || script == [] then (c, false)
    else
      match script[0]
      case Data(bytes) => if |bytes| < READ_SIZE then (Read(c, bytes), false) else Serviced(Read(c, bytes), script[1..])
      case WouldBlock => (c, false)
      case Interrupted => Serviced(c, script[1..])
      case EndOfFile => (c, true)
      case Broken => (c, true)
  }

  /** The chunks that were read. */
  function ChunksOf(script: seq<ReadResult>): seq<string>
    decreases script
  {
    if script == [] then []
    else
      match script[0]
      case Data(bytes) => [bytes] + if |bytes| < READ_SIZE then [] else ChunksOf(script[1..])
      case Interrupted => ChunksOf(script[1..])
      case _ => []
  }

  lemma OneChunk(f: Framer<Request>, max: nat, c: Session, b: string, more: seq<string>)
    requires Framing(f, max)
    ensures OnReads(f, max, c, [b] + more) == OnReads(f, max, OnRead(f, max, c, b), more)
    ensures OnReads(f, max, c, []) == c
  {
    assert ([b] + more)[1..] == more;
  }

  /** Servicing is reading those chunks, so what is known of whole connections applies to it. */
  lemma {:induction false} ServicedIsReads(c: Session, script: seq<ReadResult>)
    requires Framing(RequestFrame, MAX_COMMAND_LINE_LEN)
    ensures Serviced(c, script).0 == OnReads(RequestFrame, MAX_COMMAND_LINE_LEN, c, ChunksOf(script))
    decreases script
  {
    if c.stuck {
      StuckStays(RequestFrame, MAX_COMMAND_LINE_LEN, c, ChunksOf(script));
    } else if script != [] && (script[0].Data? || script[0].Interrupted?) {
      if script[0].Data? {
        var b := script[0].bytes;
        OneChunk(RequestFrame, MAX_COMMAND_LINE_LEN, c, b, if |b| < READ_SIZE then [] else ChunksOf(script[1..]));
        OneChunk(RequestFrame, MAX_COMMAND_LINE_LEN, Read(c, b), b, []);
        if |b| >= READ_SIZE { ServicedIsReads(Read(c, b), script[1..]); }
      } else {
        ServicedIsReads(c, script[1..]);
      }
    }
  }

  /** Servicing a client returns if and only if after each read its last command fits. */
  lemma ServiceReturnsIff(c: Session, script: seq<ReadResult>)
    requires !c.stuck
    ensures !Serviced(c, script).0.stuck <==> ReadsFit(c.buffer, ChunksOf(script))
  {
    ParsersFrameWell();
    ServicedIsReads(c, script);
    ReadsReturnIff(RequestFrame, MAX_COMMAND_LINE_LEN, c, ChunksOf(script));
  }

  /** One successful read: feed the parser, drain it. */
  method ReadChunk(p: IncrementalParser, kv: KVStore, before: string, bytes: string) returns (sent: string)
    requires kv.Valid() && LastCommandFits(p.buffer + bytes)
    modifies p, kv`size, kv`contents, kv.shards
    ensures kv.Valid()
    ensures Read(Session(old(kv.contents), old(p.buffer), before, false), bytes) == Session(kv.contents, p.buffer, sent, false)
  {
    ReadIsDrain(Session(kv.contents, p.buffer, before, false), bytes);
    p.Feed(bytes);
    var reply := DrainParser(p, kv);
    sent := before + reply;
  }

  lemma ReadIsDrain(c: Session, bytes: string)
    requires !c.stuck && LastCommandFits(c.buffer + bytes)
    ensures var d := DrainRequests(c.buffer + bytes);
            && d.Drained?
            && Read(c, bytes) == Session(HandleAll(c.store, d.outs).0, d.rest, c.sent + HandleAll(c.store, d.outs).1, false)
  {
    ParsersFrameWell();
    DrainLoopReturns(c.buffer + bytes);
  }

  lemma FirstReadFits(c: Session, bytes: string, later: seq<ReadResult>)
    requires !c.stuck && !Serviced(c, [Data(bytes)] + later).0.stuck
    ensures LastCommandFits(c.buffer + bytes)
  {
    ServiceReturnsIff(c, [Data(bytes)] + later);
    ParsersFrameWell();
    assert ChunksOf([Data(bytes)] + later) != [] && ChunksOf([Data(bytes)] + later)[0] == bytes;
  }

  lemma HeadAndTail<T>(s: seq<T>, i: nat)
    requires i < |s|
    ensures s[i..] == [s[i]] + s[i + 1..]
  {
  }

  /** The read loop of `service_client`.  It returns exactly when after each read the last command fits. */
  method ServiceConnection(p: IncrementalParser, kv: KVStore, script: seq<ReadResult>) returns (sent: string, close: bool)
    requires kv.Valid() && ReadsFit(p.buffer, ChunksOf(script))
    modifies p, kv`size, kv`contents, kv.shards
    ensures kv.Valid()
    ensures Serviced(Session(old(kv.contents), old(p.buffer), "", false), script)
            == (Session(kv.contents, p.buffer, sent, false), close)
  {
    sent, close := "", false;
    ghost var outcome := Serviced(Session(kv.contents, p.buffer, "", false), script);
    ServiceReturnsIff(Session(kv.contents, p.buffer, "", false), script);
    var i := 0;
    while i < |script|
      invariant i <= |script| && kv.Valid() && !close && !outcome.0.stuck
      invariant Serviced(Session(kv.contents, p.buffer, sent, false), script[i..]) == outcome
    {
      HeadAndTail(script, i);
      match script[i] {
        case Data(bytes) =>
          FirstReadFits(Session(kv.contents, p.buffer, sent, false), bytes, script[i + 1..]);
          sent := ReadChunk(p, kv, sent, bytes);
          if |bytes| < READ_SIZE { return; }
        case EndOfFile => return sent, true;
        case Broken => return sent, true;
        case WouldBlock => return;
        case Interrupted =>
      }
      i := i + 1;
    }
  }

  // ---------- The poll set ----------

  datatype PollFd = PollFd(fd: int, ready: bool)

  function FdsFrom(s: seq<PollFd>, i: nat): set<int> {
    set j | i <= j < |s| :: s[j].fd
  }

  predicate DistinctFds(s: seq<PollFd>) {
    forall i, j :: 0 <= i < j < |s| ==> s[i].fd != s[j].fd
  }

  /** `close_client`: the last entry takes the closed entry's slot. */
  function SwapRemoved<T>(s: seq<T>, i: nat): seq<T>
    requires i < |s|
  {
    s[i := s[|s| - 1]][..|s| - 1]
  }

  /** One visit to a client: what was sent, and whether it was closed. */
  datatype Visit = Visit(fd: int, sent: string, closed: bool)

  datatype World = World(store: Store, table: map<int, string>, visits: seq<Visit>)

  function Visited(w: World, fd: int, script: seq<ReadResult>): World {
    if fd !in w.table then w
    else
      var (c, closed) := Serviced(Session(w.store, w.table[fd], "", false), script);
      World(c.store, if closed then w.table - {fd} else w.table[fd := c.buffer], w.visits + [Visit(fd, c.sent, closed)])
  }

  /** Clients visited one after another. */
  function AllVisited(w: World, order: seq<int>, scripts: int -> seq<ReadResult>): World {
    if order == [] then w
    else Visited(AllVisited(w, order[..|order| - 1], scripts), order[|order| - 1], scripts(order[|order| - 1]))
  }

  /** Servicing the client returns: after each read its last command fits. */
  predicate Answerable(buffer: string, script: seq<ReadResult>) {
    ReadsFit(buffer, ChunksOf(script))
  }
}
