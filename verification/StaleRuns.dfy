/** Both reasons for stale data do occur, even when no two requests ever overlap. */
module StaleRuns {
  import opened KvSpec
  import opened Failover
  import opened History
  import opened FailoverHistory
  import opened Staleness
  import opened Routing
  import opened RouterSteps
  import opened Divergence

  /** From position `i` on everybody is up and answers: the write is acknowledged and nobody is marked down. */
  lemma {:induction false} SetDelivered(prefs: seq<Node>, i: nat, k: Key, x: Value, stores: map<Node, Store>,
                                        alive: map<Node, bool>, first: Option<Response>, fates: nat -> Fate)
    requires i <= |prefs| && forall j :: 0 <= j < |prefs| ==> prefs[j] in stores
    requires forall j :: i <= j < |prefs| ==> Up(alive, prefs[j]) && fates(j).Delivered?
    requires first == Some(Ok) || (first.None? && i < |prefs|)
    ensures var out := Routed(prefs, i, Set(k, x), stores, alive, first, fates); out.resp == Ok && out.alive == alive
    decreases |prefs| - i
  {
    if i < |prefs| {
      SetDelivered(prefs, i + 1, k, x, stores[prefs[i] := Exec(stores[prefs[i]], Set(k, x)).0], alive, Some(Ok), fates);
    }
  }

  lemma NothingShown(log: Log, p: nat, n: Node, k: Key)
    requires p <= |log| && ShownValue(log[..p], n, k).None? && forall w :: 0 <= w < |log| ==> log[w] != Invoked(Delete(k))
    ensures Shown(log[..p], n, k) == -1
  {
    assert forall w :: 0 <= w < p ==> log[..p][w] == log[w];
  }

  lemma NothingRead(log: Log, p: nat, q: nat, k: Key)
    requires q < p < |log| && ReadShows(log, p) && log[p].Served? && q < log[p].id < p && log[p].resp == NotFound
    requires log[log[p].id] == Invoked(Get(k)) && log[q].Responded? && WriteOf(log, log[q].id, k)
    requires forall w :: 0 <= w < |log| ==> log[w] != Invoked(Delete(k))
    ensures Stale(log, p, q, k)
  {
    NothingShown(log, p, log[p].node, k);
  }

  /** A read that finds nothing, after a write of the key was answered and none was ever deleted, is stale. */
  lemma NotFoundIsStale(c: Config, v: Overlap, ls: seq<Label>, a: nat, q: nat, b: nat, k: Key) returns (p: nat)
    requires ValidConfig(c) && Run(c, Anything, v, ls)
    requires var log := After(c, ls).log;
             && a < |log| && q < b < |log| && WriteOf(log, a, k) && log[q].Responded? && log[q].id == a
             && log[b] == Invoked(Get(k)) && log[|log| - 1] == Responded(b, NotFound)
             && forall w :: 0 <= w < |log| ==> log[w] != Invoked(Delete(k))
    ensures p < |After(c, ls).log| && Stale(After(c, ls).log, p, q, k)
  {
    var log := After(c, ls).log;
    assert LogShape(log) by { ShapeRun(c, Anything, v, ls); }
    assert Accounted(log, |log| - 1) && ServedWith(log, b, |log| - 1, NotFound);
    p :| b < p < |log| - 1 && Serve(log[p], b) && log[p].resp == NotFound;
    assert ReadShows(log, p) by { ReadReturnsShown(c, v, ls, p); }
    NothingRead(log, p, q, k);
  }

  /** What both runs begin with: everybody is up and holds nothing. */
  lemma Fresh(c: Config, k: Key)
    requires ValidConfig(c)
    ensures Init(c).stores.Keys == c.nodes && Permitted(c, Anything, WriterAlone, Init(c), Begin(0, Get(k)))
    ensures forall x :: Permitted(c, Anything, WriterAlone, Init(c), Begin(0, Set(k, x)))
    ensures forall j :: 0 <= j < |c.prefs(k)| ==> Up(Init(c).alive, c.prefs(k)[j]) && Init(c).stores[c.prefs(k)[j]] == map[]
  {
  }

  function AliveAfterLosing(c: Config, k: Key, lost: nat): map<Node, bool>
    requires |c.prefs(k)| > 0
  {
    if lost == 1 then Init(c).alive[c.prefs(k)[0] := false] else Init(c).alive
  }

  lemma WriteOutcome(c: Config, k: Key, x: Value, lost: nat)
    requires ValidConfig(c) && lost <= 1 && lost < |c.prefs(k)| && Init(c).stores.Keys == c.nodes
    ensures var out := Routed(c.prefs(k), 0, Set(k, x), Init(c).stores, Init(c).alive, None, FirstLost(lost));
            && out.resp == Ok && out.alive == AliveAfterLosing(c, k, lost)
            && (lost == 1 ==> c.prefs(k)[0] in out.stores && out.stores[c.prefs(k)[0]] == map[])
  {
    var s, prefs := Init(c), c.prefs(k);
    if lost == 1 {
      var alive := s.alive[prefs[0] := false];
      assert Routed(prefs, 0, Set(k, x), s.stores, s.alive, None, FirstLost(1))
             == Routed(prefs, 1, Set(k, x), s.stores, alive, None, FirstLost(1));
      SetDelivered(prefs, 1, k, x, s.stores, alive, None, FirstLost(1));
      RoutedTouches(prefs, 1, Set(k, x), s.stores, alive, None, FirstLost(1));
      assert prefs[0] !in prefs[1..];
    } else {
      SetDelivered(prefs, 0, k, x, s.stores, s.alive, None, FirstLost(0));
    }
  }

  /** After an acknowledged write, with the primary missed or not. */
  ghost predicate Written(c: Config, s: State, k: Key, x: Value, lost: nat)
    requires |c.prefs(k)| > 0
  {
    && s.stores.Keys == c.nodes && s.ops == map[] && s.beat == Resting && s.crashed == {}
    && s.alive == AliveAfterLosing(c, k, lost) && (lost == 1 ==> StoreOf(s, c.prefs(k)[0]) == map[])
    && Own([Invoked(Set(k, x))], s.log, 0) && s.log[|s.log| - 1] == Responded(0, Ok)
  }

  lemma WriteFirst(c: Config, k: Key, x: Value, lost: nat) returns (ls: seq<Label>)
    requires ValidConfig(c) && lost <= 1 && lost < |c.prefs(k)|
    ensures Run(c, Anything, WriterAlone, ls) && Written(c, After(c, ls), k, x, lost)
  {
    Fresh(c, k);
    ls := [];
    ls := RoutingContinues(c, Anything, WriterAlone, ls, 0, Set(k, x), FirstLost(lost));
    WriteOutcome(c, k, x, lost);
    assert After(c, ls).stores.Keys == c.nodes by { ShapeRun(c, Anything, WriterAlone, ls); }
    assert Init(c).log + [Invoked(Set(k, x))] == [Invoked(Set(k, x))];
  }

  /** The primary can be read again and holds nothing. */
  ghost predicate Forgotten(c: Config, s: State, k: Key)
    requires |c.prefs(k)| > 0
  {
    && s.stores.Keys == c.nodes && s.ops == map[] && s.crashed == {}
    && Up(s.alive, c.prefs(k)[0]) && StoreOf(s, c.prefs(k)[0]) == map[]
  }

  /** The primary is up, believed up and holds nothing: a read finds nothing. */
  lemma ReadNothing(c: Config, ls: seq<Label>, k: Key) returns (ls': seq<Label>)
    requires ValidConfig(c) && Run(c, Anything, WriterAlone, ls)
    requires Forgotten(c, After(c, ls), k)
    ensures Run(c, Anything, WriterAlone, ls')
    ensures var log, log' := After(c, ls).log, After(c, ls').log;
            Own(log + [Invoked(Get(k))], log', |log|) && log'[|log'| - 1] == Responded(|log|, NotFound)
  {
    var s := After(c, ls);
    ls' := RoutingContinues(c, Anything, WriterAlone, ls, 0, Get(k), AllDelivered());
    ReadsAtPrimary(c.prefs(k), k, s.stores, s.alive, AllDelivered());
  }

  /** The logs of these runs: a write answered, something else, and a read that finds nothing. */
  lemma StoryOf(log1: Log, mid: Log, log: Log, k: Key, x: Value)
    requires Own([Invoked(Set(k, x))], log1, 0) && log1[|log1| - 1] == Responded(0, Ok)
    requires (forall p :: 0 <= p < |mid| ==> !mid[p].Invoked?) && Own(log1 + mid + [Invoked(Get(k))], log, |log1 + mid|)
    ensures 0 < |log1| <= |log1 + mid| < |log|
    ensures WriteOf(log, 0, k) && log[|log1| - 1] == Responded(0, Ok) && log[|log1 + mid|] == Invoked(Get(k))
    ensures forall w :: 0 <= w < |log| ==> log[w] != Invoked(Delete(k))
    ensures forall e :: e in log && (e.Restarted? || e.MarkedUp?) ==> e in mid
  {
    var pre := log1 + mid + [Invoked(Get(k))];
    assert pre[|log1| - 1] == log1[|log1| - 1] && log1[0] == Invoked(Set(k, x)) && pre[0] == log1[0];
    assert forall w :: 0 <= w < |pre| ==> log[w] == pre[w];
    forall w | 0 <= w < |log| ensures log[w] != Invoked(Delete(k)) && (log[w].Restarted? || log[w].MarkedUp? ==> log[w] in mid) {
      if w < |log1| {
        assert pre[w] == log1[w];
      } else if w < |log1 + mid| {
        assert pre[w] == mid[w - |log1|];
      }
    }
  }

  lemma Conclude(c: Config, ls: seq<Label>, k: Key, x: Value, log1: Log, mid: Log) returns (ls': seq<Label>, p: nat, q: nat)
    requires ValidConfig(c) && Run(c, Anything, WriterAlone, ls) && Forgotten(c, After(c, ls), k)
    requires Begins(After(c, ls).log, k, x, log1, mid)
    ensures Run(c, Anything, WriterAlone, ls')
    ensures var log := After(c, ls').log;
            && q < |log| && p < |log| && Stale(log, p, q, k) && log[q] == Responded(0, Ok)
            && forall e :: e in log && (e.Restarted? || e.MarkedUp?) ==> e in mid
  {
    ls' := ReadNothing(c, ls, k);
    StoryOf(log1, mid, After(c, ls').log, k, x);
    q := |log1| - 1;
    p := NotFoundIsStale(c, WriterAlone, ls', 0, q, |log1 + mid|, k);
  }

  lemma TwoMore(c: Config, ls: seq<Label>, l1: Label, l2: Label)
    requires Run(c, Anything, WriterAlone, ls) && Permitted(c, Anything, WriterAlone, After(c, ls), l1)
    requires Permitted(c, Anything, WriterAlone, Step(c, After(c, ls), l1), l2)
    ensures Run(c, Anything, WriterAlone, ls + [l1] + [l2])
    ensures After(c, ls + [l1] + [l2]) == Step(c, Step(c, After(c, ls), l1), l2)
  {
    Extend(c, Anything, WriterAlone, ls, l1);
    Extend(c, Anything, WriterAlone, ls + [l1], l2);
  }

  /** The log starts with a write that is answered, and then `mid` happens. */
  ghost predicate Begins(log: Log, k: Key, x: Value, log1: Log, mid: Log) {
    && Own([Invoked(Set(k, x))], log1, 0) && log1[|log1| - 1] == Responded(0, Ok)
    && log == log1 + mid && forall p :: 0 <= p < |mid| ==> !mid[p].Invoked?
  }

  lemma ThenTwo(log1: Log, k: Key, x: Value, e1: Event, e2: Event)
    requires Own([Invoked(Set(k, x))], log1, 0) && log1[|log1| - 1] == Responded(0, Ok) && !e1.Invoked? && !e2.Invoked?
    ensures Begins(log1 + [e1] + [e2], k, x, log1, [e1, e2])
  {
  }

  lemma CrashAndRestart(c: Config, s: State, k: Key, x: Value)
    requires ValidConfig(c) && Written(c, s, k, x, 0)
    ensures var n := c.prefs(k)[0];
            && Permitted(c, Anything, WriterAlone, s, Crash(n))
            && Permitted(c, Anything, WriterAlone, Step(c, s, Crash(n)), Restart(n))
            && Forgotten(c, Step(c, Step(c, s, Crash(n)), Restart(n)), k)
            && Begins(Step(c, Step(c, s, Crash(n)), Restart(n)).log, k, x, s.log, [Crashed(n), Restarted(n)])
  {
    assert c.prefs(k)[0] in c.nodes;
    ThenTwo(s.log, k, x, Crashed(c.prefs(k)[0]), Restarted(c.prefs(k)[0]));
  }

  lemma PingAndRecord(c: Config, s: State, k: Key, x: Value)
    requires ValidConfig(c) && Written(c, s, k, x, 1)
    ensures var n := c.prefs(k)[0];
            && Permitted(c, Anything, WriterAlone, s, Probe(n, true))
            && Permitted(c, Anything, WriterAlone, Step(c, s, Probe(n, true)), Record)
            && Forgotten(c, Step(c, Step(c, s, Probe(n, true)), Record), k)
            && Begins(Step(c, Step(c, s, Probe(n, true)), Record).log, k, x, s.log, [Probed(n, true), MarkedUp(n)])
  {
    assert c.prefs(k)[0] in c.nodes;
    ThenTwo(s.log, k, x, Probed(c.prefs(k)[0], true), MarkedUp(c.prefs(k)[0]));
  }

  lemma WriteAndRestart(c: Config, k: Key, x: Value) returns (ls: seq<Label>, log1: Log, mid: Log)
    requires ValidConfig(c)
    ensures Run(c, Anything, WriterAlone, ls) && Forgotten(c, After(c, ls), k) && Begins(After(c, ls).log, k, x, log1, mid)
    ensures forall e :: e in mid ==> !e.MarkedUp?
  {
    var n := c.prefs(k)[0];
    var ls0 := WriteFirst(c, k, x, 0);
    log1, mid := After(c, ls0).log, [Crashed(n), Restarted(n)];
    CrashAndRestart(c, After(c, ls0), k, x);
    TwoMore(c, ls0, Crash(n), Restart(n));
    ls := ls0 + [Crash(n)] + [Restart(n)];
  }

  lemma WriteAndPing(c: Config, k: Key, x: Value) returns (ls: seq<Label>, log1: Log, mid: Log)
    requires ValidConfig(c) && |c.prefs(k)| >= 2
    ensures Run(c, Anything, WriterAlone, ls) && Forgotten(c, After(c, ls), k) && Begins(After(c, ls).log, k, x, log1, mid)
    ensures forall e :: e in mid ==> !e.Restarted?
  {
    var n := c.prefs(k)[0];
    var ls0 := WriteFirst(c, k, x, 1);
    log1, mid := After(c, ls0).log, [Probed(n, true), MarkedUp(n)];
    PingAndRecord(c, After(c, ls0), k, x);
    TwoMore(c, ls0, Probe(n, true), Record);
    ls := ls0 + [Probe(n, true)] + [Record];
  }

  /** A stale read because of a restart alone: the key's primary crashed and came back empty, and nobody was ever marked
      up. */
  lemma StaleAfterRestart(c: Config, k: Key, x: Value) returns (ls: seq<Label>, p: nat, q: nat)
    requires ValidConfig(c)
    ensures Run(c, Anything, WriterAlone, ls)
    ensures var log := After(c, ls).log;
            p < |log| && q < |log| && Stale(log, p, q, k) && log[q] == Responded(0, Ok) && forall e :: e in log ==> !e.MarkedUp?
  {
    var ls0, log1, mid := WriteAndRestart(c, k, x);
    ls, p, q := Conclude(c, ls0, k, x, log1, mid);
  }

  /** A stale read because of a missed write alone: one exchange with the primary failed, a ping brought it back, and no
      node ever restarted. */
  lemma StaleAfterMiss(c: Config, k: Key, x: Value) returns (ls: seq<Label>, p: nat, q: nat)
    requires ValidConfig(c) && |c.prefs(k)| >= 2
    ensures Run(c, Anything, WriterAlone, ls)
    ensures var log := After(c, ls).log;
            p < |log| && q < |log| && Stale(log, p, q, k) && log[q] == Responded(0, Ok) && forall e :: e in log ==> !e.Restarted?
  {
    var ls0, log1, mid := WriteAndPing(c, k, x);
    ls, p, q := Conclude(c, ls0, k, x, log1, mid);
  }
}
