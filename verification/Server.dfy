/** One server connection end to end: bytes in, one map, bytes out, and the client's side of an exchange. */
module Server {
  import opened KvSpec
  import opened Answers
  import opened Wire
  import opened Chunking
  import opened RoundTrip

  /** The invariant that keeps every reply sendable: no stored value is longer than the protocol can announce. */
  predicate Bounded(s: Store) {
    forall k :: k in s ==> |s[k]| <= MAX_VALUE_LEN
  }

  lemma HandledIsSendable(s: Store, r: Request)
    requires Bounded(s) && ValidRequest(r)
    ensures Bounded(Exec(s, r).0) && Sendable(Exec(s, r).1) && !Exec(s, r).1.Error?
  {
  }

  /** The drain loop's body: parse errors are answered, requests are executed. */
  function Handle(s: Store, out: Item<Request>): (Store, Response) {
    match out
    case Parsed(r) => Exec(s, r)
    case Bad(m) => (s, Error(m))
  }

  function HandleAll(s: Store, outs: seq<Item<Request>>): (Store, string)
    decreases |outs|
  {
    if outs == [] then (s, "")
    else
      var (s1, r) := Handle(s, outs[0]);
      var (s2, bytes) := HandleAll(s1, outs[1..]);
      (s2, EncodeResponse(r) + bytes)
  }

  lemma SentInTwo(sent: string, x: string, y: string, sent': string)
    requires sent' == sent + x
    ensures sent' + y == sent + (x + y)
  {
  }

  lemma {:induction false} HandleInTwo(s: Store, a: seq<Item<Request>>, b: seq<Item<Request>>)
    ensures var x := HandleAll(s, a); var y := HandleAll(x.0, b);
            HandleAll(s, a + b) == (y.0, x.1 + y.1)
    decreases |a|
  {
    if a == [] {
      assert a + b == b;
      assert "" + HandleAll(s, b).1 == HandleAll(s, b).1;
    } else {
      var s1, r := Handle(s, a[0]).0, EncodeResponse(Handle(s, a[0]).1);
      assert (a + b)[1..] == a[1..] + b;
      HandleInTwo(s1, a[1..], b);
      var x := HandleAll(s1, a[1..]);
      SentInTwo(r, x.1, HandleAll(x.0, b).1, r + x.1);
    }
  }

  /** A connection: its shared store, the parser's buffer, what was written back, and whether the reactor is caught in
      the drain loop. */
  datatype Session = Session(store: Store, buffer: string, sent: string, stuck: bool)

  /** One read: feed the parser, drain it, write every response. */
  function OnRead(f: Framer<Request>, max: nat, c: Session, chunk: string): Session
    requires Framing(f, max)
  {
    if c.stuck then c
    else
      var d := Drain(f, max, c.buffer + chunk);
      var (s, bytes) := HandleAll(c.store, d.outs);
      Session(s, if d.Stuck? then c.buffer + chunk else d.rest, c.sent + bytes, d.Stuck?)
  }

  function OnReads(f: Framer<Request>, max: nat, c: Session, chunks: seq<string>): Session
    requires Framing(f, max)
    decreases |chunks|
  {
    if chunks == [] then c else OnReads(f, max, OnRead(f, max, c, chunks[0]), chunks[1..])
  }

  /** From `c` to `c'` the server drained `d`, answered it and kept what was left. */
  predicate Answered(c: Session, c': Session, d: Drained<Request>) {
    var h := HandleAll(c.store, d.outs);
    c'.store == h.0 && c'.sent == c.sent + h.1 && c'.stuck == d.Stuck? && (d.Drained? ==> c'.buffer == d.rest)
  }

  lemma AnsweredInTwo(c: Session, c0: Session, c1: Session, d0: Drained<Request>, d1: Drained<Request>)
    requires Answered(c, c0, d0) && Answered(c0, c1, d1)
    ensures Answered(c, c1, Prepend(d0.outs, d1))
  {
    HandleInTwo(c.store, d0.outs, d1.outs);
    var h0, h1 := HandleAll(c.store, d0.outs), HandleAll(c0.store, d1.outs);
    SentInTwo(c.sent, h0.1, h1.1, c0.sent);
  }

  /** Answering after every read or once at the end makes no difference to what is sent or stored. */
  lemma {:induction false} ReadsAreOneFeed(f: Framer<Request>, max: nat, c: Session, chunks: seq<string>)
    requires Framing(f, max) && !c.stuck
    ensures Answered(c, OnReads(f, max, c, chunks), FeedAll(f, max, Drained([], c.buffer), chunks))
    decreases |chunks|
  {
    if chunks == [] {
      assert c.sent + "" == c.sent;
    } else {
      var d0, c0 := Drain(f, max, c.buffer + chunks[0]), OnRead(f, max, c, chunks[0]);
      assert Answered(c, c0, d0) && Prepend([], d0) == d0;
      FeedWithOutputs(f, max, d0, chunks[1..]);
      if d0.Stuck? {
        StuckStays(f, max, c0, chunks[1..]);
      } else {
        ReadsAreOneFeed(f, max, c0, chunks[1..]);
        AnsweredInTwo(c, c0, OnReads(f, max, c, chunks), d0, FeedAll(f, max, Drained([], d0.rest), chunks[1..]));
      }
    }
  }

  lemma {:induction false} StuckStays(f: Framer<Request>, max: nat, c: Session, chunks: seq<string>)
    requires Framing(f, max) && c.stuck
    ensures OnReads(f, max, c, chunks) == c
    decreases |chunks|
  {
    if chunks != [] { StuckStays(f, max, c, chunks[1..]); }
  }

  lemma {:induction false} FeedWithOutputs(f: Framer<Request>, max: nat, d: Drained<Request>, chunks: seq<string>)
    requires Framing(f, max)
    ensures d.Drained? ==> FeedAll(f, max, d, chunks)
                           == Prepend(d.outs, FeedAll(f, max, Drained([], d.rest), chunks))
    decreases |chunks|
  {
    if chunks != [] && d.Drained? {
      var e := Drain(f, max, d.rest + chunks[0]);
      FeedWithOutputs(f, max, Prepend(d.outs, e), chunks[1..]);
      FeedWithOutputs(f, max, e, chunks[1..]);
      assert Prepend([], e) == e;
      if e.Drained? {
        PrependTwice(d.outs, e.outs, FeedAll(f, max, Drained([], e.rest), chunks[1..]));
      }
    }
  }

  /** A connection is not caught in the drain loop if and only if after each read the last command fits. */
  lemma ReadsReturnIff(f: Framer<Request>, max: nat, c: Session, chunks: seq<string>)
    requires Framing(f, max) && !c.stuck
    ensures !OnReads(f, max, c, chunks).stuck <==> PrefixesFit(f, max, c.buffer, chunks)
  {
    ReadsAreOneFeed(f, max, c, chunks);
    FeedReturnsIff(f, max, c.buffer, chunks);
  }

  // ---------- The whole connection ----------

  lemma {:induction false} HandleParsed(s: Store, rs: seq<Request>)
    ensures HandleAll(s, AllParsed(rs)) == (Replay(s, rs).0, EncodeAll(EncodeResponse, Replay(s, rs).1))
    decreases |rs|
  {
    if rs != [] {
      var s1, r := Exec(s, rs[0]).0, Exec(s, rs[0]).1;
      HandleParsed(s1, rs[1..]);
      assert AllParsed(rs)[1..] == AllParsed(rs[1..]);
      assert Replay(s, rs).1[1..] == Replay(s1, rs[1..]).1;
    }
  }

  lemma {:induction false} RepliesAreSendable(s: Store, rs: seq<Request>)
    requires Bounded(s) && forall i :: 0 <= i < |rs| ==> ValidRequest(rs[i])
    ensures Bounded(Replay(s, rs).0)
    ensures forall i :: 0 <= i < |rs| ==>
              Sendable(Replay(s, rs).1[i]) && |HeadOf(Replay(s, rs).1[i])| <= MAX_RESPONSE_LINE_LEN
    decreases |rs|
  {
    if rs != [] {
      var r := Exec(s, rs[0]).1;
      HandledIsSendable(s, rs[0]);
      if r.ValueIs? { LengthRoundTrip(|r.value|); }
      RepliesAreSendable(Exec(s, rs[0]).0, rs[1..]);
    }
  }

  /** A server connection from its first byte. */
  function Serve(s: Store, chunks: seq<string>): Session {
    ParsersFrameWell();
    OnReads(RequestFrame, MAX_COMMAND_LINE_LEN, Session(s, "", "", false), chunks)
  }

  /** End to end: any pipeline of valid requests, however the network cuts it up, is answered with exactly one response
      per request, in order, each as its key's last earlier write calls for; nothing stays in the parser; and however
      the network cuts up the answer, the client reads those responses back. */
  lemma EndToEnd(s: Store, rs: seq<Request>, chunks: seq<string>, replies: seq<string>)
    requires Bounded(s) && (forall i :: 0 <= i < |rs| ==> ValidRequest(rs[i]))
    requires Flatten(chunks) == EncodeAll(EncodeRequest, rs) && Flatten(replies) == Serve(s, chunks).sent
    ensures Serve(s, chunks) == Session(Replay(s, rs).0, "", EncodeAll(EncodeResponse, Replay(s, rs).1), false)
    ensures FeedResponses(replies) == Drained(AllParsed(Replay(s, rs).1), "")
    ensures LikeOneMap(s, rs, Replay(s, rs).1) && Bounded(Replay(s, rs).0)
  {
    ParsersFrameWell();
    ReadsAreOneFeed(RequestFrame, MAX_COMMAND_LINE_LEN, Session(s, "", "", false), chunks);
    PipelinedRequests(rs, chunks);
    HandleParsed(s, rs);
    var bytes := EncodeAll(EncodeResponse, Replay(s, rs).1);
    assert "" + bytes == bytes;
    RepliesAreSendable(s, rs);
    ReplayAnswers(s, rs, Replay(s, rs).1);
    PipelinedResponses(Replay(s, rs).1, replies);
  }
}
