/** One turn of the reactor's `run` loop on its objects, and what it adds to the history of its clients. */
module ReactorRun {
  import opened KvSpec
  import opened Chunking
  import opened RoundTrip
  import opened ReactorLoop
  import opened PollLoop
  import opened Ledger

  function Joins(fds: seq<int>): seq<Event> {
    if fds == [] then [] else Joins(fds[..|fds| - 1]) + [Joined(fds[|fds| - 1])]
  }

  function Visits(order: seq<int>, scripts: int -> seq<ReadResult>): seq<Event> {
    if order == [] then []
    else Visits(order[..|order| - 1], scripts) + [Ready(order[|order| - 1], scripts(order[|order| - 1]))]
  }

  lemma Regroup<T>(a: seq<T>, b: seq<T>, x: T)
    ensures a + (b + [x]) == (a + b) + [x]
  {
  }

  // ---------- Joining ----------

  /** A descriptor that joins is the only one whose standing changes. */
  lemma JoinedStanding(es: seq<Event>, fd: int, g: int)
    ensures Open(es + [Joined(fd)], g) <==> g == fd || Open(es, g)
    ensures Lives(es + [Joined(fd)], g) == Lives(es, g) + if g == fd then 1 else 0
    ensures forall life :: Delivered(es + [Joined(fd)], g, life) == Delivered(es, g, life)
  {
    Snoc(es, Joined(fd));
    forall life ensures Delivered(es + [Joined(fd)], g, life) == Delivered(es, g, life) {
      assert Delivered(es, g, life) + [] == Delivered(es, g, life);
    }
  }

  /** From `es` to `es'` only the clients in `fds` joined. */
  ghost predicate OnlyJoined(es: seq<Event>, es': seq<Event>, fds: seq<int>) {
    && (forall g :: Open(es', g) <==> g in fds || Open(es, g))
    && (forall g :: g !in fds ==> Lives(es', g) == Lives(es, g))
    && (forall g, life :: Delivered(es', g, life) == Delivered(es, g, life))
  }

  lemma OneJoins(es: seq<Event>, fd: int)
    ensures OnlyJoined(es, es + [Joined(fd)], [fd])
  {
    forall g, life
      ensures (Open(es + [Joined(fd)], g) <==> g == fd || Open(es, g))
              && Lives(es + [Joined(fd)], g) == Lives(es, g) + (if g == fd then 1 else 0)
              && Delivered(es + [Joined(fd)], g, life) == Delivered(es, g, life)
    {
      JoinedStanding(es, fd, g);
    }
  }

  lemma JoinedMore(es: seq<Event>, mid: seq<Event>, es': seq<Event>, pre: seq<int>, fd: int)
    requires OnlyJoined(es, mid, pre) && OnlyJoined(mid, es', [fd])
    ensures OnlyJoined(es, es', pre + [fd])
  {
  }

  lemma JoinedFit(es: seq<Event>, es': seq<Event>, fds: seq<int>)
    requires OnlyJoined(es, es', fds) && Fit(es)
    ensures Fit(es')
  {
    forall g, life ensures ReadsFit("", Delivered(es', g, life)) {
      assert ReadsFit("", Delivered(es, g, life));
    }
  }

  lemma {:induction false} WorldJoins(from: Store, es: seq<Event>, fds: seq<int>)
    ensures WorldOf(from, es + Joins(fds)) == WorldOf(from, es).(table := Admitted(WorldOf(from, es).table, fds))
    decreases |fds|
  {
    if fds == [] {
      assert es + Joins(fds) == es;
    } else {
      var pre, fd := fds[..|fds| - 1], fds[|fds| - 1];
      WorldJoins(from, es, pre);
      Regroup(es, Joins(pre), Joined(fd));
      Snoc(es + Joins(pre), Joined(fd));
    }
  }

  lemma OneOrderly(es: seq<Event>, e: Event)
    requires Orderly(es) && (Open(es, e.fd) <==> e.Ready?)
    ensures Orderly(es + [e])
  {
    Snoc(es, e);
  }

  lemma LastIsNew(fds: seq<int>)
    requires NoRepeats(fds) && fds != []
    ensures var pre, fd := fds[..|fds| - 1], fds[|fds| - 1]; fds == pre + [fd] && fd !in pre && NoRepeats(pre)
  {
  }

  /** Absent clients join: what is delivered stays, and who was there stays. */
  lemma {:induction false} AllJoin(es: seq<Event>, fds: seq<int>)
    requires Orderly(es) && Fit(es) && NoRepeats(fds) && forall fd :: fd in fds ==> !Open(es, fd)
    ensures var es' := es + Joins(fds); Orderly(es') && Fit(es') && OnlyJoined(es, es', fds)
    decreases |fds|
  {
    if fds == [] {
      assert es + Joins(fds) == es;
    } else {
      var pre, fd := fds[..|fds| - 1], fds[|fds| - 1];
      LastIsNew(fds);
      AllJoin(es, pre);
      var mid := es + Joins(pre);
      Regroup(es, Joins(pre), Joined(fd));
      OneOrderly(mid, Joined(fd));
      OneJoins(mid, fd);
      JoinedMore(es, mid, mid + [Joined(fd)], pre, fd);
      JoinedFit(mid, mid + [Joined(fd)], [fd]);
    }
  }

  // ---------- Visiting ----------

  lemma VisitedStanding(es: seq<Event>, fd: int, script: seq<ReadResult>, g: int)
    ensures var es' := es + [Ready(fd, script)];
            && (g != fd ==> (Open(es', g) <==> Open(es, g))) && Lives(es', g) == Lives(es, g)
            && (forall life :: Delivered(es', g, life)
                               == Delivered(es, g, life) + if g == fd && life == Lives(es, fd) then Taken(script) else [])
  {
    Snoc(es, Ready(fd, script));
  }

  /** The clients in `order` can all be read to the end of their scripts. */
  ghost predicate Readable(es: seq<Event>, order: seq<int>, scripts: int -> seq<ReadResult>) {
    forall fd :: fd in order ==> Open(es, fd) && ReadsFit("", Delivered(es, fd, Lives(es, fd)) + Taken(scripts(fd)))
  }

  /** From `es` to `es'` only the clients in `order` were visited. */
  ghost predicate OnlyVisited(es: seq<Event>, es': seq<Event>, order: seq<int>) {
    && (forall g :: g !in order ==> (Open(es', g) <==> Open(es, g)))
    && (forall g :: Lives(es', g) == Lives(es, g))
    && (forall g, life :: g !in order ==> Delivered(es', g, life) == Delivered(es, g, life))
  }

  lemma OneVisits(es: seq<Event>, fd: int, script: seq<ReadResult>)
    ensures OnlyVisited(es, es + [Ready(fd, script)], [fd])
  {
    var es' := es + [Ready(fd, script)];
    forall g ensures (g != fd ==> (Open(es', g) <==> Open(es, g))) && Lives(es', g) == Lives(es, g) {
      VisitedStanding(es, fd, script, g);
    }
    forall g, life | g != fd ensures Delivered(es', g, life) == Delivered(es, g, life) {
      VisitedStanding(es, fd, script, g);
      assert Delivered(es, g, life) + [] == Delivered(es, g, life);
    }
  }

  lemma VisitedMore(es: seq<Event>, mid: seq<Event>, es': seq<Event>, pre: seq<int>, fd: int)
    requires OnlyVisited(es, mid, pre) && OnlyVisited(mid, es', [fd])
    ensures OnlyVisited(es, es', pre + [fd])
  {
    assert forall g :: g !in pre + [fd] ==> g !in pre && g !in [fd];
  }

  lemma {:induction false} WorldVisits(from: Store, es: seq<Event>, order: seq<int>, scripts: int -> seq<ReadResult>)
    ensures WorldOf(from, es + Visits(order, scripts)) == AllVisited(WorldOf(from, es), order, scripts)
    decreases |order|
  {
    if order == [] {
      assert es + Visits(order, scripts) == es;
    } else {
      var pre, fd := order[..|order| - 1], order[|order| - 1];
      WorldVisits(from, es, pre, scripts);
      Regroup(es, Visits(pre, scripts), Ready(fd, scripts(fd)));
      Snoc(es + Visits(pre, scripts), Ready(fd, scripts(fd)));
    }
  }

  lemma {:induction false} AllVisit(es: seq<Event>, order: seq<int>, scripts: int -> seq<ReadResult>)
    requires Orderly(es) && Fit(es) && NoRepeats(order) && Readable(es, order, scripts)
    ensures var es' := es + Visits(order, scripts); Orderly(es') && Fit(es') && OnlyVisited(es, es', order)
    decreases |order|
  {
    if order == [] {
      assert es + Visits(order, scripts) == es;
    } else {
      var pre, fd := order[..|order| - 1], order[|order| - 1];
      LastIsNew(order);
      AllVisit(es, pre, scripts);
      var mid, e := es + Visits(pre, scripts), Ready(fd, scripts(fd));
      Regroup(es, Visits(pre, scripts), e);
      StandsYet(es, mid, pre, fd, scripts(fd));
      OneOrderly(mid, e);
      OneVisits(mid, fd, scripts(fd));
      VisitedMore(es, mid, mid + [e], pre, fd);
      VisitFit(mid, fd, scripts(fd));
    }
  }

  lemma StandsYet(es: seq<Event>, mid: seq<Event>, pre: seq<int>, fd: int, script: seq<ReadResult>)
    requires OnlyVisited(es, mid, pre) && fd !in pre && Open(es, fd)
    requires ReadsFit("", Delivered(es, fd, Lives(es, fd)) + Taken(script))
    ensures Open(mid, fd) && ReadsFit("", Delivered(mid, fd, Lives(mid, fd)) + Taken(script))
  {
    assert Lives(mid, fd) == Lives(es, fd) && Delivered(mid, fd, Lives(es, fd)) == Delivered(es, fd, Lives(es, fd));
  }

  lemma VisitFit(es: seq<Event>, fd: int, script: seq<ReadResult>)
    requires Fit(es) && ReadsFit("", Delivered(es, fd, Lives(es, fd)) + Taken(script))
    ensures Fit(es + [Ready(fd, script)])
  {
    forall g, life ensures ReadsFit("", Delivered(es + [Ready(fd, script)], g, life)) {
      VisitedStanding(es, fd, script, g);
      assert ReadsFit("", Delivered(es, g, life));
      assert Delivered(es, g, life) + [] == Delivered(es, g, life);
    }
  }

  // ---------- One turn of the loop ----------

  lemma InTable(s: seq<PollFd>, fd: int)
    requires |s| > 0
    ensures fd in FdsFrom(s, 1) <==> exists e :: e in s[1..] && e.fd == fd
  {
    if fd in FdsFrom(s, 1) {
      var j :| 1 <= j < |s| && s[j].fd == fd;
      assert s[1..][j - 1] == s[j];
    }
    if e :| e in s[1..] && e.fd == fd {
      var j :| 0 <= j < |s[1..]| && s[1..][j] == e;
      assert s[j + 1] == e;
    }
  }

  lemma {:induction false} EntriesAreIdle(fds: seq<int>)
    ensures forall e :: e in Entries(fds) ==> !e.ready
  {
    if fds != [] { EntriesAreIdle(fds[..|fds| - 1]); }
  }

  /** Who is ready: the polled descriptors that were reported; those that joined since are not. */
  lemma WhoIsReady(s: seq<PollFd>, t: seq<PollFd>, ready: set<int>, fds: seq<int>)
    requires |s| == |t| > 0 && forall i :: 0 <= i < |s| ==> t[i] == PollFd(s[i].fd, s[i].fd in ready)
    ensures forall fd :: fd in PollLoop.Ready((t + Entries(fds))[1..]) <==> fd in ready && fd in FdsFrom(s, 1)
  {
    var u := (t + Entries(fds))[1..];
    assert u == t[1..] + Entries(fds);
    EntriesAreIdle(fds);
    SameFds(s, t, 1);
    forall fd ensures fd in PollLoop.Ready(u) <==> fd in ready && fd in FdsFrom(s, 1) {
      InTable(t, fd);
      if fd in PollLoop.Ready(u) {
        var e :| e in u && e.ready && e.fd == fd;
        assert e in t[1..];
        var j :| 0 <= j < |t[1..]| && t[1..][j] == e;
        assert t[j + 1] == e;
      }
      if fd in ready && fd in FdsFrom(s, 1) {
        var e :| e in t[1..] && e.fd == fd;
        var j :| 0 <= j < |t[1..]| && t[1..][j] == e;
        assert t[j + 1] == e && e in u;
      }
    }
  }

  lemma ReadableIsAnswerable(from: Store, es: seq<Event>, w: World, ts: seq<Turn>, fd: int, script: seq<ReadResult>)
    requires Kept(from, es, w, ts) && fd in w.table && ReadsFit("", Delivered(es, fd, Lives(es, fd)) + Taken(script))
    ensures Answerable(w.table[fd], script)
  {
    assert Current(es, w, fd);
    FitReturns(Delivered(es, fd, Lives(es, fd)) + Taken(script));
    FedMore(Delivered(es, fd, Lives(es, fd)), Taken(script));
    ParsersFrameWell();
    FeedReturnsIff(Wire.RequestFrame, Wire.MAX_COMMAND_LINE_LEN, w.table[fd], Taken(script));
    TakenIsChunks(script);
  }

  /** The reactor's data are what these events leave. */
  ghost predicate Shows(r: WorkerReactor, from: Store, es: seq<Event>)
    reads r, r.store
  {
    Orderly(es) && Fit(es) && r.Now() == WorldOf(from, es)
  }

  /** `poll` reports `ready`, and the clients in `joining` are taken over. */
  method PollAndAccept(r: WorkerReactor, joining: seq<int>, ready: set<int>, ghost from: Store, ghost es: seq<Event>)
    requires r.Valid() && Shows(r, from, es)
    requires NoRepeats(joining) && forall i :: 0 <= i < |joining| ==> joining[i] !in FdsFrom(r.pollFds, 0)
    modifies r`pollFds, r`parsers
    ensures r.Valid() && Shows(r, from, es + Joins(joining)) && OnlyJoined(es, es + Joins(joining), joining)
    ensures forall i :: 0 <= i < |joining| ==> !Open(es, joining[i])
    ensures forall fd :: fd in PollLoop.Ready(r.pollFds[1..]) <==> fd in ready && Open(es, fd)
  {
    ghost var polled := r.pollFds;
    WhoIsThere(from, es, r.parsers);
    r.Poll(ready);
    SameFds(polled, r.pollFds, 0);
    WhoIsReady(polled, r.pollFds, ready, joining);
    NobodyIsThere(polled, joining, es, r.parsers);
    AllJoin(es, joining);
    WorldJoins(from, es, joining);
    r.AcceptPendingClients(joining);
  }

  lemma WhoIsThere(from: Store, es: seq<Event>, table: map<int, string>)
    requires Orderly(es) && Fit(es) && table == WorldOf(from, es).table
    ensures forall fd :: fd in table <==> Open(es, fd)
  {
    var ts := BooksAreKept(from, es);
  }

  /** The pass services everyone reported ready, exactly once, in some order. */
  method Pass(r: WorkerReactor, scripts: int -> seq<ReadResult>, ghost from: Store, ghost es: seq<Event>)
    returns (ghost order: seq<int>)
    requires r.Valid() && Shows(r, from, es)
    requires forall fd :: fd in PollLoop.Ready(r.pollFds[1..]) ==>
               Open(es, fd) && ReadsFit("", Delivered(es, fd, Lives(es, fd)) + Taken(scripts(fd)))
    modifies r`pollFds, r`parsers, r`visits, r.store`size, r.store`contents, r.store.shards
    ensures r.Valid() && Shows(r, from, es + Visits(order, scripts))
    ensures NoRepeats(order) && forall fd :: fd in order <==> fd in old(PollLoop.Ready(r.pollFds[1..]))
  {
    PassIsAnswerable(from, es, r.pollFds, r.parsers, scripts);
    ghost var ready := PollLoop.Ready(r.pollFds[1..]);
    order := r.ServicePass(scripts);
    InOrder(order, ready);
    AllVisit(es, order, scripts);
    WorldVisits(from, es, order, scripts);
  }

  lemma PassIsAnswerable(from: Store, es: seq<Event>, s: seq<PollFd>, table: map<int, string>, scripts: int -> seq<ReadResult>)
    requires Orderly(es) && Fit(es) && table == WorldOf(from, es).table && |s| > 0
    requires forall fd :: fd in PollLoop.Ready(s[1..]) ==>
               Open(es, fd) && ReadsFit("", Delivered(es, fd, Lives(es, fd)) + Taken(scripts(fd)))
    ensures AllAnswerable(s[1..], table, scripts)
  {
    var ts := BooksAreKept(from, es);
    forall e | e in s[1..] && e.ready && e.fd in table ensures Answerable(table[e.fd], scripts(e.fd)) {
      assert e.fd in PollLoop.Ready(s[1..]);
      ReadableIsAnswerable(from, es, WorldOf(from, es), ts, e.fd, scripts(e.fd));
    }
  }

  /** One turn of `run`: `poll` reports `ready`, the clients in `joining` are taken over, and the pass services everyone
      who was there and reported ready, exactly once, in some order.  It returns exactly when their reads fit. */
  method RunOnce(r: WorkerReactor, joining: seq<int>, ready: set<int>, scripts: int -> seq<ReadResult>, ghost from: Store,
                 ghost es: seq<Event>)
    returns (ghost order: seq<int>)
    requires r.Valid() && Shows(r, from, es)
    requires NoRepeats(joining) && forall i :: 0 <= i < |joining| ==> joining[i] !in FdsFrom(r.pollFds, 0)
    requires forall fd :: fd in ready && Open(es, fd) ==>
               ReadsFit("", Delivered(es, fd, Lives(es, fd)) + Taken(scripts(fd)))
    modifies r`pollFds, r`parsers, r`visits, r.store`size, r.store`contents, r.store.shards
    ensures r.Valid() && Shows(r, from, es + Joins(joining) + Visits(order, scripts))
    ensures NoRepeats(order) && forall fd :: fd in order <==> fd in ready && Open(es, fd)
  {
    PollAndAccept(r, joining, ready, from, es);
    StillReadable(es, es + Joins(joining), joining, ready, scripts);
    order := Pass(r, scripts, from, es + Joins(joining));
  }

  lemma StillReadable(es: seq<Event>, mid: seq<Event>, joining: seq<int>, ready: set<int>, scripts: int -> seq<ReadResult>)
    requires OnlyJoined(es, mid, joining) && (forall i :: 0 <= i < |joining| ==> !Open(es, joining[i]))
    requires forall fd :: fd in ready && Open(es, fd) ==>
               ReadsFit("", Delivered(es, fd, Lives(es, fd)) + Taken(scripts(fd)))
    ensures forall fd :: fd in ready && Open(es, fd) ==>
              Open(mid, fd) && ReadsFit("", Delivered(mid, fd, Lives(mid, fd)) + Taken(scripts(fd)))
  {
    forall fd | fd in ready && Open(es, fd)
      ensures Open(mid, fd) && ReadsFit("", Delivered(mid, fd, Lives(mid, fd)) + Taken(scripts(fd)))
    {
      assert fd !in joining && Lives(mid, fd) == Lives(es, fd);
    }
  }

  lemma InOrder(order: seq<int>, fds: set<int>)
    requires (set fd | fd in order) == fds
    ensures forall fd :: fd in order <==> fd in fds
  {
    forall fd ensures fd in order <==> fd in fds {
      assert fd in order <==> fd in (set g | g in order);
    }
  }

  lemma NobodyIsThere(s: seq<PollFd>, joining: seq<int>, es: seq<Event>, table: map<int, string>)
    requires |s| > 0 && FdsFrom(s, 1) == table.Keys && (forall fd :: fd in table <==> Open(es, fd))
    requires forall i :: 0 <= i < |joining| ==> joining[i] !in FdsFrom(s, 0)
    ensures forall i :: 0 <= i < |joining| ==> !Open(es, joining[i])
  {
    assert forall fd :: fd in FdsFrom(s, 1) ==> fd in FdsFrom(s, 0);
  }
}
