/** The reactor's poll set and parser table, and the pass that services every ready client while closing swaps entries
    under its feet. */
module PollLoop {
  import opened KvSpec
  import opened Parsers
  import opened StripedStore
  import opened ReactorLoop

  lemma SwapRemovedFds(s: seq<PollFd>, i: nat, k: nat)
    requires k <= i < |s| && DistinctFds(s)
    ensures var t := SwapRemoved(s, i);
            DistinctFds(t) && FdsFrom(t, k) == FdsFrom(s, k) - {s[i].fd} && |t| == |s| - 1
            && (forall j :: 0 <= j < |t| ==> t[j] == s[if j == i then |s| - 1 else j])
            && (forall e :: e in t[i..] <==> e in s[i + 1..])
  {
    var t := SwapRemoved(s, i);
    forall fd | fd in FdsFrom(s, k) - {s[i].fd} ensures fd in FdsFrom(t, k) {
      var j :| k <= j < |s| && s[j].fd == fd;
      assert t[if j == |s| - 1 then i else j].fd == fd;
    }
    forall e | e in s[i + 1..] ensures e in t[i..] {
      var j :| i + 1 <= j < |s| && s[j] == e;
      assert t[i..][if j == |s| - 1 then 0 else j - i] == e;
    }
  }

  lemma SameFds(s: seq<PollFd>, t: seq<PollFd>, k: nat)
    requires |s| == |t| && forall i :: 0 <= i < |s| ==> t[i].fd == s[i].fd
    ensures FdsFrom(t, k) == FdsFrom(s, k)
  {
    forall fd | fd in FdsFrom(s, k) ensures fd in FdsFrom(t, k) {
      var j :| k <= j < |s| && s[j].fd == fd;
      assert t[j].fd == fd;
    }
  }

  function Entries(fds: seq<int>): seq<PollFd> {
    if fds == [] then [] else Entries(fds[..|fds| - 1]) + [PollFd(fds[|fds| - 1], false)]
  }

  function BufferOf(table: map<int, string>, fd: int): Option<string> {
    if fd in table then Some(table[fd]) else None
  }

  /** New clients get empty parsers. */
  function Admitted(table: map<int, string>, fds: seq<int>): map<int, string> {
    if fds == [] then table else Admitted(table, fds[..|fds| - 1])[fds[|fds| - 1] := ""]
  }

  lemma {:induction false} AdmittedMeans(table: map<int, string>, fds: seq<int>, fd: int)
    ensures BufferOf(Admitted(table, fds), fd) == if fd in fds then Some("") else BufferOf(table, fd)
  {
    if fds != [] {
      assert fds == fds[..|fds| - 1] + [fds[|fds| - 1]];
      AdmittedMeans(table, fds[..|fds| - 1], fd);
    }
  }

  lemma AdmitOne(s: seq<PollFd>, table: map<int, string>, fds: seq<int>, n: nat)
    requires n < |fds|
    ensures s + Entries(fds[..n + 1]) == s + Entries(fds[..n]) + [PollFd(fds[n], false)]
    ensures Admitted(table, fds[..n + 1]) == Admitted(table, fds[..n])[fds[n] := ""]
  {
    assert fds[..n + 1][..n] == fds[..n];
  }

  lemma EntryAdded(s: seq<PollFd>, e: PollFd)
    ensures forall k: nat :: k <= |s| ==> FdsFrom(s + [e], k) == FdsFrom(s, k) + {e.fd}
    ensures DistinctFds(s) && e.fd !in FdsFrom(s, 0) ==> DistinctFds(s + [e])
  {
    forall k: nat | k <= |s| ensures FdsFrom(s + [e], k) == FdsFrom(s, k) + {e.fd} {
      assert (s + [e])[|s|] == e;
      forall fd | fd in FdsFrom(s, k) ensures fd in FdsFrom(s + [e], k) {
        var j :| k <= j < |s| && s[j].fd == fd;
        assert (s + [e])[j].fd == fd;
      }
    }
  }

  class WorkerReactor {
    const store: KVStore
    var pollFds: seq<PollFd>
    /** For each client the bytes its parser has buffered. */
    var parsers: map<int, string>
    ghost var visits: seq<Visit>

    /** Slot 0 is the wakeup pipe; the other descriptors are distinct and are exactly the parser table's keys. */
    ghost predicate Valid()
      reads this, store, store.shards
    {
      store.Valid() && |pollFds| > 0 && DistinctFds(pollFds) && FdsFrom(pollFds, 1) == parsers.Keys
    }

    ghost function Now(): World
      reads this, store
    {
      World(store.contents, parsers, visits)
    }

    constructor (store: KVStore, wakeupFd: int)
      requires store.Valid()
      ensures Valid() && this.store == store && pollFds == [PollFd(wakeupFd, false)] && Now() == World(store.contents, map[], [])
    {
      this.store := store;
      pollFds := [PollFd(wakeupFd, false)];
      parsers := map[];
      visits := [];
    }

    /** What `poll` reports: exactly the descriptors in `ready`. */
    method Poll(ready: set<int>)
      requires Valid()
      modifies this`pollFds
      ensures Valid() && |pollFds| == |old(pollFds)|
      ensures forall i :: 0 <= i < |pollFds| ==> pollFds[i] == PollFd(old(pollFds)[i].fd, old(pollFds)[i].fd in ready)
    {
      var es := pollFds;
      pollFds := seq(|es|, i requires 0 <= i < |es| => PollFd(es[i].fd, es[i].fd in ready));
      SameFds(es, pollFds, 1);
    }

    /** `accept_pending_clients`, on the batch swapped out of the pending list. */
    method AcceptPendingClients(fds: seq<int>)
      requires Valid() && NoRepeats(fds) && forall m :: 0 <= m < |fds| ==> fds[m] !in FdsFrom(pollFds, 0)
      modifies this`pollFds, this`parsers
      ensures Valid() && pollFds == old(pollFds) + Entries(fds) && parsers == Admitted(old(parsers), fds)
    {
      assert fds[..0] == [] && pollFds + [] == pollFds;
      for n := 0 to |fds|
        invariant Valid() && pollFds == old(pollFds) + Entries(fds[..n]) && parsers == Admitted(old(parsers), fds[..n])
        invariant forall m :: n <= m < |fds| ==> fds[m] !in FdsFrom(pollFds, 0)
      {
        AdmitOne(old(pollFds), old(parsers), fds, n);
        EntryAdded(pollFds, PollFd(fds[n], false));
        pollFds := pollFds + [PollFd(fds[n], false)];
        parsers := parsers[fds[n] := ""];
      }
      assert fds[..|fds|] == fds;
    }

    /** `close_client`. */
    method CloseClient(i: nat)
      requires Valid() && 0 < i < |pollFds|
      modifies this`pollFds, this`parsers
      ensures Valid()
      ensures pollFds == SwapRemoved(old(pollFds), i) && parsers == old(parsers) - {old(pollFds)[i].fd}
    {
      SwapRemovedFds(pollFds, i, 1);
      parsers := parsers - {pollFds[i].fd};
      pollFds := pollFds[i := pollFds[|pollFds| - 1]];
      pollFds := pollFds[..|pollFds| - 1];
    }

    /** `service_client`: the client's parser is taken through the read loop, and the client is closed when its
        connection ended. */
    method ServiceClient(i: nat, script: seq<ReadResult>)
      requires Valid() && 0 < i < |pollFds|
      requires pollFds[i].fd in parsers ==> Answerable(parsers[pollFds[i].fd], script)
      modifies this`pollFds, this`parsers, this`visits, store`size, store`contents, store.shards
      ensures Valid() && |visits| == old(|visits|) + 1
      ensures Now() == Visited(old(Now()), old(pollFds)[i].fd, script)
      ensures pollFds == if visits[|visits| - 1].closed then SwapRemoved(old(pollFds), i) else old(pollFds)
    {
      var fd := pollFds[i].fd;
      assert fd in FdsFrom(pollFds, 1);
      var parser := new IncrementalParser();
      parser.Feed(parsers[fd]);
      assert parser.buffer == parsers[fd];
      var sent, close := ServiceConnection(parser, store, script);
      visits := visits + [Visit(fd, sent, close)];
      if close {
        CloseClient(i);
      } else {
        parsers := parsers[fd := parser.buffer];
      }
    }

    /** The service loop of `run`: one pass over the poll set after `poll` returned.  Every client reported ready is
        serviced exactly once and no other, whatever closing does to the order of the entries. */
    method ServicePass(scripts: int -> seq<ReadResult>) returns (ghost order: seq<int>)
      requires Valid() && AllAnswerable(pollFds[1..], parsers, scripts)
      modifies this`pollFds, this`parsers, this`visits, store`size, store`contents, store.shards
      ensures Valid()
      ensures NoRepeats(order) && (set fd | fd in order) == Ready(old(pollFds)[1..])
      ensures Now() == AllVisited(old(Now()), order, scripts)
    {
      order := [];
      var i := 1;
      while i < |pollFds|
        invariant 1 <= i <= |pollFds| && Valid()
        invariant PassInv(order, pollFds[i..], Ready(old(pollFds)[1..]))
        invariant AllAnswerable(pollFds[i..], parsers, scripts)
        invariant Now() == AllVisited(old(Now()), order, scripts)
        decreases |pollFds| - i
      {
        ghost var fds, was, all := pollFds, Now(), Ready(old(pollFds)[1..]);
        if pollFds[i].ready {
          var fd, before := pollFds[i].fd, |pollFds|;
          ServiceClient(i, scripts(fd));
          AheadAfter(fds, i, pollFds, |pollFds| < before);
          ghost var ahead := pollFds[if |pollFds| < before then i else i + 1..];
          PassServes(order, fds[i..], ahead, all);
          VisitedElsewhere(was, fd, scripts(fd));
          StillAnswerable(fds[i..], ahead, was.table, parsers, fd, scripts);
          VisitNext(old(Now()), order, fd, scripts);
          order := order + [fd];
          if |pollFds| < before { continue; }
        } else {
          PassSkips(order, fds[i..], all);
          assert fds[i..][1..] == fds[i + 1..];
        }
        i := i + 1;
      }
    }
  }

  function Ready(es: seq<PollFd>): set<int> {
    set e | e in es && e.ready :: e.fd
  }

  ghost predicate AllAnswerable(es: seq<PollFd>, table: map<int, string>, scripts: int -> seq<ReadResult>) {
    forall e :: e in es && e.ready && e.fd in table ==> Answerable(table[e.fd], scripts(e.fd))
  }

  /** Part way through a pass: `order` was serviced, `ahead` has not been looked at. */
  ghost predicate PassInv(order: seq<int>, ahead: seq<PollFd>, ready: set<int>) {
    && NoRepeats(order)
    && (set fd | fd in order) + Ready(ahead) == ready
    && forall e :: e in ahead ==> e.fd !in order
  }

  lemma PassServes(order: seq<int>, ahead: seq<PollFd>, ahead': seq<PollFd>, ready: set<int>)
    requires PassInv(order, ahead, ready) && ahead != [] && ahead[0].ready && DistinctFds(ahead)
    requires forall e :: e in ahead' <==> e in ahead[1..]
    ensures PassInv(order + [ahead[0].fd], ahead', ready) && forall e :: e in ahead' ==> e.fd != ahead[0].fd
  {
    var fd := ahead[0].fd;
    assert ahead[0] in ahead && forall e :: e in ahead <==> e == ahead[0] || e in ahead[1..];
    assert Ready(ahead) == Ready(ahead') + {fd};
    forall x ensures x in order + [fd] <==> x in order || x == fd {
    }
  }

  lemma PassSkips(order: seq<int>, ahead: seq<PollFd>, ready: set<int>)
    requires PassInv(order, ahead, ready) && ahead != [] && !ahead[0].ready
    ensures PassInv(order, ahead[1..], ready)
  {
    assert forall e :: e in ahead <==> e == ahead[0] || e in ahead[1..];
    assert Ready(ahead) == Ready(ahead[1..]);
  }

  /** What is ahead after servicing slot `i`: everything that was behind it. */
  lemma AheadAfter(s: seq<PollFd>, i: nat, t: seq<PollFd>, closed: bool)
    requires i < |s| && DistinctFds(s) && t == if closed then SwapRemoved(s, i) else s
    ensures DistinctFds(s[i..]) && i <= |t|
    ensures forall e :: e in t[if closed then i else i + 1..] <==> e in s[i..][1..]
  {
    assert s[i..][1..] == s[i + 1..];
    if closed { SwapRemovedFds(s, i, i); }
  }

  lemma VisitedElsewhere(w: World, fd: int, script: seq<ReadResult>)
    ensures forall g :: g != fd ==> BufferOf(Visited(w, fd, script).table, g) == BufferOf(w.table, g)
  {
  }

  lemma StillAnswerable(ahead: seq<PollFd>, ahead': seq<PollFd>, table: map<int, string>, table': map<int, string>, fd: int,
                        scripts: int -> seq<ReadResult>)
    requires AllAnswerable(ahead, table, scripts)
    requires forall g :: g != fd ==> BufferOf(table', g) == BufferOf(table, g)
    requires forall e :: e in ahead' ==> e in ahead && e.fd != fd
    ensures AllAnswerable(ahead', table', scripts)
  {
    forall e | e in ahead' && e.ready && e.fd in table' ensures Answerable(table'[e.fd], scripts(e.fd)) {
      assert BufferOf(table', e.fd) == BufferOf(table, e.fd);
    }
  }

  lemma VisitNext(w: World, order: seq<int>, fd: int, scripts: int -> seq<ReadResult>)
    ensures AllVisited(w, order + [fd], scripts) == Visited(AllVisited(w, order, scripts), fd, scripts(fd))
  {
    assert (order + [fd])[..|order|] == order;
  }
}
