/** A reactor's clients over any number of passes: who is answered what, said by what each of them sent. */
module Ledger {
  import opened KvSpec
  import opened Answers
  import opened Wire
  import opened Chunking
  import opened RoundTrip
  import opened Server
  import opened ReadBack
  import opened ReactorLoop

  // ---------- Scripts ----------

  /** After this result no further read is tried: the buffer was not filled, or there was nothing to read. */
  predicate Stops(r: ReadResult) {
    match r
    case Data(bytes) => |bytes| < 4096
    case Interrupted => false
    case _ => true
  }

  /** How many results are used up: all up to the first that stops. */
  function StopAt(script: seq<ReadResult>): (n: nat)
    ensures n <= |script| && (forall i :: 0 <= i < n - 1 ==> !Stops(script[i]))
    ensures n < |script| ==> n > 0 && Stops(script[n - 1])
  {
    if script == [] then 0 else if Stops(script[0]) then 1 else 1 + StopAt(script[1..])
  }

  function BytesIn(rs: seq<ReadResult>): seq<string> {
    if rs == [] then [] else (if rs[0].Data? then [rs[0].bytes] else []) + BytesIn(rs[1..])
  }

  /** What a script delivers. */
  function Taken(script: seq<ReadResult>): seq<string> {
    BytesIn(script[..StopAt(script)])
  }

  /** The script ends the connection: the last result used up is an end of file or an error. */
  predicate Closes(script: seq<ReadResult>) {
    var n := StopAt(script);
    n > 0 && (script[n - 1].EndOfFile? || script[n - 1].Broken?)
  }

  lemma {:induction false} TakenIsChunks(script: seq<ReadResult>)
    ensures Taken(script) == ChunksOf(script)
    decreases script
  {
    if script != [] {
      var n := StopAt(script);
      assert script[..n][1..] == script[1..][..n - 1];
      if !Stops(script[0]) {
        TakenIsChunks(script[1..]);
      } else {
        var t := script[..n];
        assert n == 1 && t[0] == script[0] && t[1..] == [];
        assert BytesIn(t) == (if t[0].Data? then [t[0].bytes] else []) + BytesIn([]);
      }
    }
  }

  lemma {:induction false} ServicedCloses(c: Session, script: seq<ReadResult>)
    requires !Serviced(c, script).0.stuck
    ensures Serviced(c, script).1 <==> Closes(script)
    decreases script
  {
    if script != [] && !Stops(script[0]) {
      var c' := if script[0].Data? then Read(c, script[0].bytes) else c;
      assert !c.stuck && Serviced(c, script) == Serviced(c', script[1..]);
      ServicedCloses(c', script[1..]);
      assert StopAt(script) == 1 + StopAt(script[1..]);
    }
  }

  // ---------- What happened ----------

  /** A client joined the poll set, or was ready and serviced with these read results. */
  datatype Event = Joined(fd: int) | Ready(fd: int, script: seq<ReadResult>)

  /** How often descriptor `fd` has stood for a client. */
  function Lives(es: seq<Event>, fd: int): nat {
    if es == [] then 0 else Lives(es[..|es| - 1], fd) + if es[|es| - 1] == Joined(fd) then 1 else 0
  }

  /** A client joined under `fd` and none of its scripts since has ended the connection. */
  predicate Open(es: seq<Event>, fd: int) {
    es != [] &&
    (es[|es| - 1] == Joined(fd)
     || (Open(es[..|es| - 1], fd) && (es[|es| - 1].Ready? && es[|es| - 1].fd == fd ==> !Closes(es[|es| - 1].script))))
  }

  /** All chunks the `life`-th client under `fd` has delivered. */
  function Delivered(es: seq<Event>, fd: int, life: nat): seq<string> {
    if es == [] then []
    else
      var pre, e := es[..|es| - 1], es[|es| - 1];
      Delivered(pre, fd, life) + if e.Ready? && e.fd == fd && Lives(pre, fd) == life then Taken(e.script) else []
  }

  /** Only absent clients join, and only present ones are ready. */
  predicate Orderly(es: seq<Event>) {
    es == [] || (Orderly(es[..|es| - 1]) && (Open(es[..|es| - 1], es[|es| - 1].fd) <==> es[|es| - 1].Ready?))
  }

  /** Every drain returns. */
  ghost predicate Fit(es: seq<Event>) {
    forall fd, life :: ReadsFit("", Delivered(es, fd, life))
  }

  /** What was sent to the `life`-th client under `fd`. */
  function SentTo(es: seq<Event>, visits: seq<Visit>, fd: int, life: nat): string
    decreases es
  {
    if es == [] || visits == [] then ""
    else if es[|es| - 1].Joined? then SentTo(es[..|es| - 1], visits, fd, life)
    else
      var pre, e := es[..|es| - 1], es[|es| - 1];
      SentTo(pre, visits[..|visits| - 1], fd, life)
      + if e.fd == fd && Lives(pre, fd) == life then visits[|visits| - 1].sent else ""
  }

  /** The reactor's data after these events. */
  function WorldOf(from: Store, es: seq<Event>): World {
    if es == [] then World(from, map[], [])
    else
      var w := WorldOf(from, es[..|es| - 1]);
      match es[|es| - 1]
      case Joined(fd) => w.(table := w.table[fd := ""])
      case Ready(fd, script) => Visited(w, fd, script)
  }

  // ---------- The turns ----------

  /** One item of one client, and the reply to it. */
  datatype Turn = Turn(fd: int, life: nat, item: Item<Request>, resp: Response)

  function Items(ts: seq<Turn>): seq<Item<Request>> {
    seq(|ts|, i requires 0 <= i < |ts| => ts[i].item)
  }

  function Resps(ts: seq<Turn>): seq<Response> {
    seq(|ts|, i requires 0 <= i < |ts| => ts[i].resp)
  }

  /** The turns of one client. */
  function Mine(ts: seq<Turn>, fd: int, life: nat): seq<Turn> {
    if ts == [] then []
    else
      var t := ts[|ts| - 1];
      Mine(ts[..|ts| - 1], fd, life) + if t.fd == fd && t.life == life then [t] else []
  }

  /** The turns a visit adds. */
  function Turns(fd: int, life: nat, items: seq<Item<Request>>, resps: seq<Response>): seq<Turn>
    requires |items| == |resps|
  {
    seq(|items|, i requires 0 <= i < |items| => Turn(fd, life, items[i], resps[i]))
  }

  lemma MineSnoc(ts: seq<Turn>, t: Turn, fd: int, life: nat)
    ensures Mine(ts + [t], fd, life) == Mine(ts, fd, life) + if t.fd == fd && t.life == life then [t] else []
  {
    assert (ts + [t])[..|ts|] == ts;
  }

  lemma {:induction false} MineGrows(ts: seq<Turn>, more: seq<Turn>, fd: int, life: nat, g: int, l: nat)
    requires forall i :: 0 <= i < |more| ==> (more[i].fd == fd && more[i].life == life)
    ensures Mine(ts + more, g, l) == if g == fd && l == life then Mine(ts, g, l) + more else Mine(ts, g, l)
    decreases |more|
  {
    if more == [] {
      assert ts + more == ts;
    } else {
      var pre, t := more[..|more| - 1], more[|more| - 1];
      MineGrows(ts, pre, fd, life, g, l);
      assert ts + more == (ts + pre) + [t] && pre + [t] == more;
      MineSnoc(ts + pre, t, g, l);
    }
  }

  lemma ItemsOfTurns(fd: int, life: nat, items: seq<Item<Request>>, resps: seq<Response>)
    requires |items| == |resps|
    ensures Items(Turns(fd, life, items, resps)) == items && Resps(Turns(fd, life, items, resps)) == resps
  {
  }

  lemma ItemsJoin(a: seq<Turn>, b: seq<Turn>)
    ensures Items(a + b) == Items(a) + Items(b) && Resps(a + b) == Resps(a) + Resps(b)
  {
  }

  lemma {:induction false} RepliesInTwo(s: Store, a: seq<Item<Request>>, b: seq<Item<Request>>)
    ensures Replies(s, a + b) == Replies(s, a) + Replies(HandleAll(s, a).0, b)
    decreases |a|
  {
    if a == [] {
      assert a + b == b;
    } else {
      assert (a + b)[1..] == a[1..] + b;
      RepliesInTwo(Handle(s, a[0]).0, a[1..], b);
    }
  }

  lemma {:induction false} EncodeInTwo(a: seq<Response>, b: seq<Response>)
    ensures EncodeAll(EncodeResponse, a + b) == EncodeAll(EncodeResponse, a) + EncodeAll(EncodeResponse, b)
    decreases |a|
  {
    if a == [] {
      assert a + b == b;
    } else {
      assert (a + b)[1..] == a[1..] + b;
      EncodeInTwo(a[1..], b);
    }
  }

  lemma {:induction false} OneReplyEach(s: Store, items: seq<Item<Request>>)
    ensures |Replies(s, items)| == |items|
    decreases |items|
  {
    if items != [] { OneReplyEach(Handle(s, items[0]).0, items[1..]); }
  }

  // ---------- One visit ----------

  /** What the parser makes of more chunks behind `rest`. */
  function FedFrom(rest: string, chunks: seq<string>): Drained<Request> {
    ParsersFrameWell();
    FeedAll(RequestFrame, MAX_COMMAND_LINE_LEN, Drained([], rest), chunks)
  }

  lemma FedMore(before: seq<string>, chunks: seq<string>)
    requires FeedRequests(before).Drained?
    ensures var d := FeedRequests(before); FeedRequests(before + chunks) == Prepend(d.outs, FedFrom(d.rest, chunks))
  {
    ParsersFrameWell();
    FeedInTwo(RequestFrame, MAX_COMMAND_LINE_LEN, Drained([], ""), before, chunks);
    FeedWithOutputs(RequestFrame, MAX_COMMAND_LINE_LEN, FeedRequests(before), chunks);
  }

  lemma FitReturns(chunks: seq<string>)
    ensures ReadsFit("", chunks) <==> FeedRequests(chunks).Drained?
  {
    ParsersFrameWell();
    FeedReturnsIff(RequestFrame, MAX_COMMAND_LINE_LEN, "", chunks);
  }

  lemma VisitMeans(w: World, fd: int, script: seq<ReadResult>)
    requires fd in w.table && FedFrom(w.table[fd], Taken(script)).Drained?
    ensures var d := FedFrom(w.table[fd], Taken(script)); var h := HandleAll(w.store, d.outs);
            Visited(w, fd, script) == World(h.0, if Closes(script) then w.table - {fd} else w.table[fd := d.rest],
                                            w.visits + [Visit(fd, h.1, Closes(script))])
  {
    var c := Session(w.store, w.table[fd], "", false);
    ParsersFrameWell();
    TakenIsChunks(script);
    ServicedIsReads(c, script);
    ReadsAreOneFeed(RequestFrame, MAX_COMMAND_LINE_LEN, c, ChunksOf(script));
    ServicedCloses(c, script);
    var sent := HandleAll(w.store, FedFrom(w.table[fd], Taken(script)).outs).1;
    assert "" + sent == sent;
  }

  // ---------- The books ----------

  /** The turns so far account for the store and for every client. */
  ghost predicate Kept(from: Store, es: seq<Event>, w: World, ts: seq<Turn>) {
    && w.store == HandleAll(from, Items(ts)).0 && Resps(ts) == Replies(from, Items(ts))
    && (forall fd :: fd in w.table <==> Open(es, fd))
    && (forall fd :: fd in w.table ==> Current(es, w, fd))
    && (forall fd, life :: Served(es, w, ts, fd, life))
  }

  /** The parser of the client under `fd` keeps what its chunks leave undecided. */
  predicate Current(es: seq<Event>, w: World, fd: int)
    requires fd in w.table
  {
    var d := FeedRequests(Delivered(es, fd, Lives(es, fd))); d.Drained? && w.table[fd] == d.rest
  }

  /** The client was answered every item of what it delivered, in order, and sent the encoded replies. */
  predicate Served(es: seq<Event>, w: World, ts: seq<Turn>, fd: int, life: nat) {
    && Items(Mine(ts, fd, life)) == FeedRequests(Delivered(es, fd, life)).outs
    && SentTo(es, w.visits, fd, life) == EncodeAll(EncodeResponse, Resps(Mine(ts, fd, life)))
  }

  lemma {:induction false} NothingYet(es: seq<Event>, fd: int, life: nat)
    requires life > Lives(es, fd)
    ensures Delivered(es, fd, life) == []
  {
    if es != [] { NothingYet(es[..|es| - 1], fd, life); }
  }

  lemma Snoc(es: seq<Event>, e: Event)
    ensures (es + [e])[..|es + [e]| - 1] == es && (es + [e])[|es + [e]| - 1] == e
  {
  }

  lemma JoinServed(es: seq<Event>, fd: int, w: World, ts: seq<Turn>, g: int, life: nat)
    requires Served(es, w, ts, g, life)
    ensures Served(es + [Joined(fd)], w.(table := w.table[fd := ""]), ts, g, life)
  {
    Snoc(es, Joined(fd));
    assert Delivered(es, g, life) + [] == Delivered(es, g, life);
  }

  lemma JoinCurrent(es: seq<Event>, fd: int, w: World, g: int)
    requires g == fd || (g in w.table && Current(es, w, g))
    ensures Current(es + [Joined(fd)], w.(table := w.table[fd := ""]), g)
  {
    Snoc(es, Joined(fd));
    if g == fd {
      NothingYet(es, fd, Lives(es, fd) + 1);
      assert Delivered(es + [Joined(fd)], fd, Lives(es, fd) + 1) == [];
    } else {
      assert Delivered(es, g, Lives(es, g)) + [] == Delivered(es, g, Lives(es, g));
    }
  }

  lemma JoinKept(from: Store, es: seq<Event>, fd: int, w: World, ts: seq<Turn>)
    requires Kept(from, es, w, ts)
    ensures Kept(from, es + [Joined(fd)], w.(table := w.table[fd := ""]), ts)
  {
    var es', w' := es + [Joined(fd)], w.(table := w.table[fd := ""]);
    Snoc(es, Joined(fd));
    forall g ensures g in w'.table <==> Open(es', g) { }
    forall g | g in w'.table ensures Current(es', w', g) { JoinCurrent(es, fd, w, g); }
    forall g, life ensures Served(es', w', ts, g, life) { JoinServed(es, fd, w, ts, g, life); }
  }

  // ---------- A visit keeps the books ----------

  lemma VisitOthers(es: seq<Event>, e: Event, w: World, w': World, ts: seq<Turn>, more: seq<Turn>, g: int, life: nat)
    requires e.Ready? && w'.visits != [] && w'.visits[..|w'.visits| - 1] == w.visits
    requires g != e.fd || life != Lives(es, e.fd)
    requires Served(es, w, ts, g, life) && Mine(ts + more, g, life) == Mine(ts, g, life)
    ensures Served(es + [e], w', ts + more, g, life)
  {
    Snoc(es, e);
    assert Delivered(es, g, life) + [] == Delivered(es, g, life);
    SentNothing(es, e, w.visits, w'.visits, g, life);
  }

  lemma SentNothing(es: seq<Event>, e: Event, visits: seq<Visit>, visits': seq<Visit>, g: int, life: nat)
    requires e.Ready? && visits' != [] && visits'[..|visits'| - 1] == visits && (g != e.fd || life != Lives(es, e.fd))
    ensures SentTo(es + [e], visits', g, life) == SentTo(es, visits, g, life)
  {
    Snoc(es, e);
    assert SentTo(es, visits, g, life) + "" == SentTo(es, visits, g, life);
  }

  lemma VisitServed(es: seq<Event>, e: Event, w: World, w': World, ts: seq<Turn>, items: seq<Item<Request>>,
                    resps: seq<Response>)
    requires e.Ready? && |items| == |resps| && w'.visits != [] && w'.visits[..|w'.visits| - 1] == w.visits
    requires var life := Lives(es, e.fd); var d := FeedRequests(Delivered(es, e.fd, life));
             && Served(es, w, ts, e.fd, life) && d.Drained?
             && FedFrom(d.rest, Taken(e.script)).outs == items
             && w'.visits[|w'.visits| - 1].sent == EncodeAll(EncodeResponse, resps)
    ensures Served(es + [e], w', ts + Turns(e.fd, Lives(es, e.fd), items, resps), e.fd, Lives(es, e.fd))
  {
    var fd, life := e.fd, Lives(es, e.fd);
    var more := Turns(fd, life, items, resps);
    Snoc(es, e);
    FedMore(Delivered(es, fd, life), Taken(e.script));
    MineGrows(ts, more, fd, life, fd, life);
    ItemsOfTurns(fd, life, items, resps);
    ItemsJoin(Mine(ts, fd, life), more);
    EncodeInTwo(Resps(Mine(ts, fd, life)), resps);
  }

  lemma VisitCurrent(es: seq<Event>, e: Event, w: World, table': map<int, string>, visits': seq<Visit>, store': Store, g: int)
    requires e.Ready? && e.fd in w.table && g in w.table && Current(es, w, g)
    requires g in table' && FedFrom(w.table[e.fd], Taken(e.script)).Drained?
    requires table'[g] == if g == e.fd then FedFrom(w.table[e.fd], Taken(e.script)).rest else w.table[g]
    ensures Current(es + [e], World(store', table', visits'), g)
  {
    Snoc(es, e);
    if g == e.fd {
      FedMore(Delivered(es, g, Lives(es, g)), Taken(e.script));
    } else {
      assert Delivered(es, g, Lives(es, g)) + [] == Delivered(es, g, Lives(es, g));
    }
  }

  lemma VisitStore(from: Store, ts: seq<Turn>, fd: int, life: nat, store: Store, items: seq<Item<Request>>, resps: seq<Response>)
    requires store == HandleAll(from, Items(ts)).0 && Resps(ts) == Replies(from, Items(ts))
    requires |items| == |resps| && resps == Replies(store, items)
    ensures var ts' := ts + Turns(fd, life, items, resps);
            HandleAll(store, items).0 == HandleAll(from, Items(ts')).0 && Resps(ts') == Replies(from, Items(ts'))
  {
    ItemsOfTurns(fd, life, items, resps);
    ItemsJoin(ts, Turns(fd, life, items, resps));
    HandleInTwo(from, Items(ts), items);
    RepliesInTwo(from, Items(ts), items);
  }

  /** The visit's parser call returns, and what it yields. */
  lemma VisitFits(es: seq<Event>, e: Event, w: World)
    requires e.Ready? && e.fd in w.table && Current(es, w, e.fd) && ReadsFit("", Delivered(es + [e], e.fd, Lives(es, e.fd)))
    ensures FedFrom(w.table[e.fd], Taken(e.script)).Drained?
  {
    Snoc(es, e);
    FitReturns(Delivered(es + [e], e.fd, Lives(es, e.fd)));
    FedMore(Delivered(es, e.fd, Lives(es, e.fd)), Taken(e.script));
  }

  /** Who is in the table after a visit, and with what. */
  lemma VisitTable(es: seq<Event>, e: Event, w: World, w': World)
    requires e.Ready? && (forall fd :: fd in w.table <==> Open(es, fd)) && (forall fd :: fd in w.table ==> Current(es, w, fd))
    requires e.fd in w.table && FedFrom(w.table[e.fd], Taken(e.script)).Drained?
    requires w'.table == if Closes(e.script) then w.table - {e.fd}
                         else w.table[e.fd := FedFrom(w.table[e.fd], Taken(e.script)).rest]
    ensures (forall fd :: fd in w'.table <==> Open(es + [e], fd)) && (forall fd :: fd in w'.table ==> Current(es + [e], w', fd))
  {
    Snoc(es, e);
    forall g | g in w'.table ensures Current(es + [e], w', g) {
      VisitCurrent(es, e, w, w'.table, w'.visits, w'.store, g);
    }
  }

  lemma VisitKept(from: Store, es: seq<Event>, e: Event, w: World, ts: seq<Turn>) returns (ts': seq<Turn>)
    requires e.Ready? && Kept(from, es, w, ts) && Open(es, e.fd) && ReadsFit("", Delivered(es + [e], e.fd, Lives(es, e.fd)))
    ensures Kept(from, es + [e], Visited(w, e.fd, e.script), ts')
  {
    var fd, life := e.fd, Lives(es, e.fd);
    VisitFits(es, e, w);
    VisitMeans(w, fd, e.script);
    var d, w' := FedFrom(w.table[fd], Taken(e.script)), Visited(w, fd, e.script);
    var resps := Replies(w.store, d.outs);
    OneReplyEach(w.store, d.outs);
    RepliesAreSent(w.store, d.outs);
    ts' := ts + Turns(fd, life, d.outs, resps);
    VisitStore(from, ts, fd, life, w.store, d.outs, resps);
    VisitTable(es, e, w, w');
    VisitAllServed(es, e, w, w', ts, d.outs, resps);
  }

  lemma VisitAllServed(es: seq<Event>, e: Event, w: World, w': World, ts: seq<Turn>, items: seq<Item<Request>>,
                       resps: seq<Response>)
    requires e.Ready? && |items| == |resps| && w'.visits != [] && w'.visits[..|w'.visits| - 1] == w.visits
    requires e.fd in w.table && Current(es, w, e.fd) && forall fd, life :: Served(es, w, ts, fd, life)
    requires FedFrom(w.table[e.fd], Taken(e.script)).outs == items
    requires w'.visits[|w'.visits| - 1].sent == EncodeAll(EncodeResponse, resps)
    ensures forall fd, life :: Served(es + [e], w', ts + Turns(e.fd, Lives(es, e.fd), items, resps), fd, life)
  {
    var more := Turns(e.fd, Lives(es, e.fd), items, resps);
    VisitServed(es, e, w, w', ts, items, resps);
    forall g, life | g != e.fd || life != Lives(es, e.fd) ensures Served(es + [e], w', ts + more, g, life) {
      MineGrows(ts, more, e.fd, Lives(es, e.fd), g, life);
      VisitOthers(es, e, w, w', ts, more, g, life);
    }
  }

  // ---------- Replies by the last writes ----------

  /** An item as a request: what cannot be parsed changes nothing, like PING. */
  function ReqOf(item: Item<Request>): Request {
    if item.Parsed? then item.msg else Ping
  }

  function Reqs(items: seq<Item<Request>>): seq<Request> {
    seq(|items|, i requires 0 <= i < |items| => ReqOf(items[i]))
  }

  /** What cannot be parsed is answered with its complaint, every request as its key's last earlier write calls for,
      whoever sent it. */
  ghost predicate RightReplies(from: Store, items: seq<Item<Request>>, resps: seq<Response>) {
    |resps| == |items| &&
    forall x :: 0 <= x < |items| ==>
      match items[x]
      case Bad(m) => resps[x] == Error(m)
      case Parsed(_) => AnswersAt(from, Reqs(items), x, resps[x])
  }

  lemma {:induction false} HandledIsMap(s: Store, items: seq<Item<Request>>)
    ensures HandleAll(s, items).0 == MapOf(s, Reqs(items))
    decreases |items|
  {
    if items != [] {
      HandledIsMap(Handle(s, items[0]).0, items[1..]);
      MapOfFront(s, ReqOf(items[0]), Reqs(items[1..]));
      assert Reqs(items) == [ReqOf(items[0])] + Reqs(items[1..]);
    }
  }

  lemma {:induction false} ReplyIsMap(s: Store, items: seq<Item<Request>>, x: nat)
    requires x < |items|
    ensures |Replies(s, items)| == |items|
    ensures Replies(s, items)[x] == Handle(MapOf(s, Reqs(items)[..x]), items[x]).1
    decreases |items|
  {
    OneReplyEach(s, items);
    if x > 0 {
      ReplyIsMap(Handle(s, items[0]).0, items[1..], x - 1);
      MapOfFront(s, ReqOf(items[0]), Reqs(items[1..])[..x - 1]);
      assert [ReqOf(items[0])] + Reqs(items[1..])[..x - 1] == Reqs(items)[..x];
    }
  }

  lemma RepliesAreRight(from: Store, items: seq<Item<Request>>)
    ensures RightReplies(from, items, Replies(from, items))
    ensures forall k, v :: Lookup(HandleAll(from, items).0, k) == Some(v) <==> Holds(from, Reqs(items), |items|, k, v)
  {
    OneReplyEach(from, items);
    forall x | 0 <= x < |items|
      ensures match items[x]
              case Bad(m) => Replies(from, items)[x] == Error(m)
              case Parsed(_) => AnswersAt(from, Reqs(items), x, Replies(from, items)[x])
    {
      ReplyIsMap(from, items, x);
      if items[x].Parsed? { AnswerOfMap(from, Reqs(items), x, Replies(from, items)[x]); }
    }
    HandledIsMap(from, items);
    forall k, v ensures Lookup(HandleAll(from, items).0, k) == Some(v) <==> Holds(from, Reqs(items), |items|, k, v) {
      MapHolds(from, Reqs(items), k, v);
    }
  }

  // ---------- Any number of passes ----------

  lemma FitBefore(es: seq<Event>, e: Event)
    requires Fit(es + [e])
    ensures Fit(es)
  {
    Snoc(es, e);
    forall fd, life ensures ReadsFit("", Delivered(es, fd, life)) {
      assert ReadsFit("", Delivered(es + [e], fd, life));
      if e.Ready? && e.fd == fd && Lives(es, fd) == life {
        FitsInPart(Delivered(es, fd, life), Taken(e.script));
      } else {
        assert Delivered(es, fd, life) + [] == Delivered(es, fd, life);
      }
    }
  }

  lemma FitsInPart(a: seq<string>, b: seq<string>)
    requires ReadsFit("", a + b)
    ensures ReadsFit("", a)
  {
    ParsersFrameWell();
    FitReturns(a);
    FitReturns(a + b);
    FeedInTwo(RequestFrame, MAX_COMMAND_LINE_LEN, Drained([], ""), a, b);
  }

  lemma {:induction false} BooksAreKept(from: Store, es: seq<Event>) returns (ts: seq<Turn>)
    requires Orderly(es) && Fit(es)
    ensures Kept(from, es, WorldOf(from, es), ts)
    decreases |es|
  {
    if es == [] {
      ts := [];
      NoEvents(from);
    } else {
      var pre, e := es[..|es| - 1], es[|es| - 1];
      assert es == pre + [e];
      FitBefore(pre, e);
      ts := BooksAreKept(from, pre);
      if e.Joined? {
        JoinKept(from, pre, e.fd, WorldOf(from, pre), ts);
      } else {
        ts := VisitKept(from, pre, e, WorldOf(from, pre), ts);
      }
    }
  }

  lemma NoEvents(from: Store)
    ensures Kept(from, [], World(from, map[], []), [])
  {
    forall fd, life ensures Served([], World(from, map[], []), [], fd, life) {
      assert Delivered([], fd, life) == [];
      ParsersFrameWell();
      assert FeedRequests([]) == Drained([], "");
    }
  }

  /** Any joins and any passes, whoever is ready in each.  There is one sequence of turns in which every client is
      answered exactly the items of the bytes it delivered, in order, each with the right reply, and is sent those
      replies; the store holds what the last writes left; a client is in the table exactly until a script of its ends
      its connection, and its entry is what its bytes leave undecided. */
  lemma EveryClientIsServed(from: Store, es: seq<Event>) returns (ts: seq<Turn>)
    requires Orderly(es) && Fit(es)
    ensures RightReplies(from, Items(ts), Resps(ts))
    ensures var w := WorldOf(from, es);
            && (forall k, v :: Lookup(w.store, k) == Some(v) <==> Holds(from, Reqs(Items(ts)), |ts|, k, v))
            && (forall fd, life :: Items(Mine(ts, fd, life)) == FeedRequests(Delivered(es, fd, life)).outs)
            && (forall fd, life :: SentTo(es, w.visits, fd, life) == EncodeAll(EncodeResponse, Resps(Mine(ts, fd, life))))
            && (forall fd :: fd in w.table <==> Open(es, fd))
            && (forall fd :: fd in w.table ==> w.table[fd] == Leftover(es, fd))
  {
    ts := BooksAreKept(from, es);
    var w := WorldOf(from, es);
    RepliesAreRight(from, Items(ts));
    forall fd, life
      ensures Items(Mine(ts, fd, life)) == FeedRequests(Delivered(es, fd, life)).outs
              && SentTo(es, w.visits, fd, life) == EncodeAll(EncodeResponse, Resps(Mine(ts, fd, life)))
    {
      assert Served(es, w, ts, fd, life);
    }
    forall fd | fd in w.table ensures w.table[fd] == Leftover(es, fd) {
      assert Current(es, w, fd);
    }
  }

  /** What the bytes of the client under `fd` leave undecided. */
  function Leftover(es: seq<Event>, fd: int): string {
    var d := FeedRequests(Delivered(es, fd, Lives(es, fd)));
    if d.Drained? then d.rest else ""
  }
}
