/** Which discipline on overlapping requests is needed.  Two concurrent writers can reach two replicas in different
    orders, so replicas stay equal in every run exactly when there is one replica; and a read that overlaps a single
    writer, followed by one crash, lets clients see time run backwards. */
module Divergence {
  import opened KvSpec
  import opened Failover
  import opened History
  import opened FailoverHistory
  import opened Linearizability
  import opened CrashStop
  import opened PrimaryOrder
  import opened Routing
  import opened RouterSteps

  function AllDelivered(): nat -> Fate {
    i => Delivered
  }

  /** The loop leaves alone every node that is not ahead of it, and keeps the first reply. */
  lemma {:induction false} RoutedTouches(prefs: seq<Node>, i: nat, req: Request, stores: map<Node, Store>, alive: map<Node, bool>,
                                         first: Option<Response>, fates: nat -> Fate)
    requires i <= |prefs| && forall j :: 0 <= j < |prefs| ==> prefs[j] in stores
    ensures var out := Routed(prefs, i, req, stores, alive, first, fates);
            && (forall n :: n in stores && n !in prefs[i..] ==> n in out.stores && out.stores[n] == stores[n])
            && (first.Some? && IsWrite(req) ==> out.resp == first.value)
    decreases |prefs| - i
  {
    if i < |prefs| {
      var n := prefs[i];
      var (s, r) := Exec(stores[n], req);
      TailOfPrefs(prefs, i);
      if !Up(alive, n) {
        RoutedTouches(prefs, i + 1, req, stores, alive, first, fates);
      } else if fates(i).Lost? {
        RoutedTouches(prefs, i + 1, req, if fates(i).applied then stores[n := s] else stores, alive[n := false], first, fates);
      } else if IsWrite(req) {
        RoutedTouches(prefs, i + 1, req, stores[n := s], alive, if first.None? then Some(r) else first, fates);
      }
    }
  }

  lemma TailOfPrefs(prefs: seq<Node>, i: nat)
    requires i < |prefs|
    ensures prefs[i] in prefs[i..] && forall n :: n in prefs[i + 1..] ==> n in prefs[i..]
  {
    assert prefs[i..] == [prefs[i]] + prefs[i + 1..];
  }

  lemma Undisturbed(c: Config, ls: seq<Label>)
    requires ValidConfig(c) && Run(c, NoFaults, Unrestricted, ls)
    ensures NobodySuspected(c, After(c, ls)) && Shape(c, After(c, ls))
  {
    FaultFreeRun(c, ls);
  }

  // ---------- Replicas that disagree ----------

  /** Thread `t`, running request `t`, is writing `v` under `k` and has passed `i` replicas. */
  ghost predicate Writing(c: Config, s: State, t: nat, k: Key, v: Value, i: nat) {
    AtTop(c, s, t) && s.ops[t].id == t && s.ops[t].req == Set(k, v) && s.ops[t].i == i && (i > 0 ==> s.ops[t].first.Some?)
  }

  /** Node `n` got the value, and nobody else anything. */
  predicate Stored(s: State, s': State, n: Node, k: Key, v: Value) {
    n in s.stores && s'.stores == s.stores[n := s.stores[n][k := v]]
  }

  lemma SendOne(c: Config, ls: seq<Label>, t: nat, k: Key, v: Value, i: nat) returns (ls': seq<Label>)
    requires ValidConfig(c) && Run(c, NoFaults, Unrestricted, ls) && Writing(c, After(c, ls), t, k, v, i) && i < |c.prefs(k)|
    ensures Run(c, NoFaults, Unrestricted, ls') && Writing(c, After(c, ls'), t, k, v, i + 1)
    ensures Moved(NoFaults, After(c, ls), After(c, ls'), t)
    ensures Stored(After(c, ls), After(c, ls'), c.prefs(k)[i], k, v)
  {
    Undisturbed(c, ls);
    var s := After(c, ls);
    var s1 := Asks(c, NoFaults, Unrestricted, s, t);
    var two, s2 := Delivers(c, NoFaults, Unrestricted, s1, t);
    Join(c, NoFaults, Unrestricted, s, [Consult(t)], s1, two, s2);
    MovedTwice(NoFaults, s, s1, s2, t);
    Continue(c, NoFaults, Unrestricted, ls, [Consult(t)] + two, s2);
    ls' := ls + ([Consult(t)] + two);
  }

  predicate OnlyTwoInvoked(log: Log) {
    forall p :: 2 <= p < |log| ==> !log[p].Invoked?
  }

  /** Threads 0 and 1 are writing `k`, having passed `i` and `j` replicas, and nothing else ever happened. */
  ghost predicate Crossing(c: Config, s: State, k: Key, v: Value, w: Value, i: nat, j: nat) {
    s.ops.Keys == {0, 1} && Writing(c, s, 0, k, v, i) && Writing(c, s, 1, k, w, j) && OnlyTwoInvoked(s.log)
  }

  lemma StillTwo(log: Log, log': Log, id: nat)
    requires OnlyTwoInvoked(log) && Own(log, log', id)
    ensures OnlyTwoInvoked(log')
  {
    assert forall p :: 0 <= p < |log| ==> log'[p] == log[p];
  }

  lemma SameThreads(f: Faults, s: State, s': State, t: nat)
    requires Moved(f, s, s', t) && t in s'.ops
    ensures s'.ops.Keys == s.ops.Keys
  {
    assert forall u :: u in s'.ops <==> u in s.ops;
  }

  lemma CrossOne(c: Config, ls: seq<Label>, t: nat, k: Key, v: Value, w: Value, i: nat, j: nat) returns (ls': seq<Label>)
    requires ValidConfig(c) && Run(c, NoFaults, Unrestricted, ls) && Crossing(c, After(c, ls), k, v, w, i, j)
    requires t < 2 && (if t == 0 then i else j) < |c.prefs(k)|
    ensures Run(c, NoFaults, Unrestricted, ls')
    ensures Crossing(c, After(c, ls'), k, v, w, if t == 0 then i + 1 else i, if t == 0 then j else j + 1)
    ensures Stored(After(c, ls), After(c, ls'), c.prefs(k)[if t == 0 then i else j], k, if t == 0 then v else w)
  {
    ls' := SendOne(c, ls, t, k, if t == 0 then v else w, if t == 0 then i else j);
    SameThreads(NoFaults, After(c, ls), After(c, ls'), t);
    StillTwo(After(c, ls).log, After(c, ls').log, t);
  }

  lemma Cross(c: Config, k: Key, v: Value, w: Value) returns (ls: seq<Label>)
    requires ValidConfig(c) && |c.prefs(k)| >= 2
    ensures Run(c, NoFaults, Unrestricted, ls) && Crossing(c, After(c, ls), k, v, w, 2, 2)
    ensures Lookup(StoreOf(After(c, ls), c.prefs(k)[0]), k) == Some(w) && Lookup(StoreOf(After(c, ls), c.prefs(k)[1]), k) == Some(v)
  {
    var ls0 := BeginBoth(c, k, v, w);
    BegunIsCrossing(c, k, v, w);
    var ls1 := CrossOne(c, ls0, 0, k, v, w, 0, 0);
    var ls2 := CrossOne(c, ls1, 1, k, v, w, 1, 0);
    var ls3 := CrossOne(c, ls2, 1, k, v, w, 1, 1);
    ls := CrossOne(c, ls3, 0, k, v, w, 1, 2);
  }

  function BothBegun(c: Config, k: Key, v1: Value, v2: Value): State {
    Init(c).(ops := map[0 := Op(0, Set(k, v1), 0, Consulting, None, None, None),
                        1 := Op(1, Set(k, v2), 0, Consulting, None, None, None)],
             log := [Invoked(Set(k, v1)), Invoked(Set(k, v2))])
  }

  lemma BegunIsCrossing(c: Config, k: Key, v: Value, w: Value)
    ensures Crossing(c, BothBegun(c, k, v, w), k, v, w, 0, 0)
  {
    assert BothBegun(c, k, v, w).stores.Keys == c.nodes;
  }

  lemma BeginBoth(c: Config, k: Key, v1: Value, v2: Value) returns (ls: seq<Label>)
    ensures Run(c, NoFaults, Unrestricted, ls) && After(c, ls) == BothBegun(c, k, v1, v2)
  {
    ls := [];
    BeginStates(c, k, v1, v2);
    Extend(c, NoFaults, Unrestricted, ls, Begin(0, Set(k, v1)));
    ls := ls + [Begin(0, Set(k, v1))];
    Extend(c, NoFaults, Unrestricted, ls, Begin(1, Set(k, v2)));
    ls := ls + [Begin(1, Set(k, v2))];
  }

  lemma BeginStates(c: Config, k: Key, v1: Value, v2: Value)
    ensures Permitted(c, NoFaults, Unrestricted, Init(c), Begin(0, Set(k, v1)))
    ensures var s1 := Step(c, Init(c), Begin(0, Set(k, v1)));
            && Permitted(c, NoFaults, Unrestricted, s1, Begin(1, Set(k, v2)))
            && Step(c, s1, Begin(1, Set(k, v2))) == BothBegun(c, k, v1, v2)
  {
  }

  /** Request `id` has been answered, and not with an error. */
  predicate AnsweredWell(log: Log, id: nat) {
    exists j :: 0 <= j < |log| && log[j].Responded? && log[j].id == id && !log[j].resp.Error?
  }

  /** What `k` holds at the first two replicas. */
  predicate SameAtFirstTwo(c: Config, stores: map<Node, Store>, stores': map<Node, Store>, k: Key) {
    |c.prefs(k)| >= 2 && forall j :: 0 <= j < 2 ==>
      c.prefs(k)[j] in stores && c.prefs(k)[j] in stores' && stores'[c.prefs(k)[j]] == stores[c.prefs(k)[j]]
  }

  lemma RestIsElsewhere(c: Config, k: Key, req: Request, stores: map<Node, Store>, alive: map<Node, bool>, first: Response)
    requires ValidConfig(c) && |c.prefs(k)| >= 2 && stores.Keys == c.nodes && IsWrite(req)
    ensures var out := Routed(c.prefs(k), 2, req, stores, alive, Some(first), AllDelivered());
            SameAtFirstTwo(c, stores, out.stores, k) && out.resp == first
  {
    RoutedTouches(c.prefs(k), 2, req, stores, alive, Some(first), AllDelivered());
    assert forall j :: 0 <= j < 2 ==> c.prefs(k)[j] !in c.prefs(k)[2..];
  }

  /** From `s` to `s'` thread `t` finished its write of `k`, touching only replicas behind the first two. */
  ghost predicate Finished(c: Config, s: State, s': State, t: nat, k: Key) {
    s'.ops == s.ops - {t} && Own(s.log, s'.log, t) && AnsweredWell(s'.log, t) && SameAtFirstTwo(c, s.stores, s'.stores, k)
  }

  lemma AnsweredIsFinished(c: Config, s: State, s': State, t: nat, k: Key, v: Value)
    requires ValidConfig(c) && |c.prefs(k)| >= 2 && Writing(c, s, t, k, v, 2) && !s.ops[t].first.value.Error?
    requires Answered(NoFaults, s, s', t, Ahead(c, s, t, AllDelivered()))
    ensures Finished(c, s, s', t, k)
  {
    RestIsElsewhere(c, k, s.ops[t].req, s.stores, s.alive, s.ops[t].first.value);
    assert s'.log[|s'.log| - 1] == Responded(t, s.ops[t].first.value);
  }

  /** Thread `t` runs to its answer. */
  lemma FinishFrom(c: Config, ls: seq<Label>, t: nat, k: Key, v: Value) returns (ls': seq<Label>)
    requires ValidConfig(c) && Run(c, NoFaults, Unrestricted, ls) && |c.prefs(k)| >= 2
    requires Writing(c, After(c, ls), t, k, v, 2)
    ensures Run(c, NoFaults, Unrestricted, ls') && Finished(c, After(c, ls), After(c, ls'), t, k)
  {
    var s := After(c, ls);
    assert NobodySuspected(c, s) && OpShape(c, s.log, s.ops[t]) by { Undisturbed(c, ls); }
    var more, s' := LoopIsRun(c, NoFaults, Unrestricted, s, t, AllDelivered());
    Continue(c, NoFaults, Unrestricted, ls, more, s');
    ls' := ls + more;
    AnsweredIsFinished(c, s, s', t, k, v);
  }

  /** Every request in the log has been answered without an error. */
  predicate WritesAnswered(log: Log) {
    forall a :: 0 <= a < |log| && log[a].Invoked? ==> AnsweredWell(log, a)
  }

  /** For any replicated key and any two values there is a failure-free run after which nobody is writing, both
      writes are acknowledged, and two live replicas hold different values. */
  lemma ConcurrentWritersDiverge(c: Config, k: Key, v1: Value, v2: Value) returns (ls: seq<Label>)
    requires ValidConfig(c) && |c.prefs(k)| >= 2
    ensures Run(c, NoFaults, Unrestricted, ls)
    ensures var s := After(c, ls);
            && s.ops == map[] && NobodySuspected(c, s) && WritesAnswered(s.log)
            && Lookup(StoreOf(s, c.prefs(k)[0]), k) == Some(v2) && Lookup(StoreOf(s, c.prefs(k)[1]), k) == Some(v1)
  {
    ls := Cross(c, k, v1, v2);
    var ls1 := FinishFrom(c, ls, 0, k, v1);
    OtherStillWrites(c, After(c, ls), ls1, k, v1, v2);
    var ls2 := FinishFrom(c, ls1, 1, k, v2);
    BothAnswered(After(c, ls).log, After(c, ls1).log, After(c, ls2).log);
    Undisturbed(c, ls2);
    ls := ls2;
  }

  lemma OtherStillWrites(c: Config, s: State, ls: seq<Label>, k: Key, v: Value, w: Value)
    requires ValidConfig(c) && Run(c, NoFaults, Unrestricted, ls)
    requires Crossing(c, s, k, v, w, 2, 2) && Finished(c, s, After(c, ls), 0, k)
    ensures Writing(c, After(c, ls), 1, k, w, 2)
  {
    Undisturbed(c, ls);
  }

  lemma BothAnswered(a: Log, b: Log, d: Log)
    requires Own(a, b, 0) && Own(b, d, 1) && AnsweredWell(b, 0) && AnsweredWell(d, 1)
    requires OnlyTwoInvoked(a)
    ensures WritesAnswered(d)
  {
    assert forall p :: 0 <= p < |b| ==> d[p] == b[p];
    assert forall p :: 0 <= p < |a| ==> b[p] == a[p];
    var j :| 0 <= j < |b| && b[j].Responded? && b[j].id == 0 && !b[j].resp.Error?;
    assert d[j] == b[j];
  }

  /** All replicas of `k` agree whenever nothing is in progress, in every failure-free run. */
  ghost predicate ReplicasAlwaysAgree(c: Config, k: Key) {
    forall ls :: Run(c, NoFaults, Unrestricted, ls) && After(c, ls).ops == map[] ==> ReplicasAgree(c, After(c, ls), k)
  }

  predicate ReplicasAgree(c: Config, s: State, k: Key) {
    forall i, j :: 0 <= i < |c.prefs(k)| && 0 <= j < |c.prefs(k)| ==>
      Lookup(StoreOf(s, c.prefs(k)[i]), k) == Lookup(StoreOf(s, c.prefs(k)[j]), k)
  }

  /** Without any failure, and without restricting overlap, replicas of a key are guaranteed to agree if and only if
      there is one. */
  lemma AgreementIffUnreplicated(c: Config, k: Key)
    requires ValidConfig(c)
    ensures ReplicasAlwaysAgree(c, k) <==> |c.prefs(k)| == 1
  {
    if |c.prefs(k)| >= 2 {
      var ls := ConcurrentWritersDiverge(c, k, "a", "b");
      assert Lookup(StoreOf(After(c, ls), c.prefs(k)[0]), k) != Lookup(StoreOf(After(c, ls), c.prefs(k)[1]), k);
      assert !ReplicasAgree(c, After(c, ls), k);
    }
  }

  // ---------- Time running backwards ----------

  /** A write was performed by the primary alone, and its reply is on its way. */
  function HalfWritten(c: Config, k: Key, x: Value): State
    requires |c.prefs(k)| > 0
  {
    var n := c.prefs(k)[0];
    Init(c).(ops := map[0 := Op(0, Set(k, x), 0, Awaiting, Some(Ok), None, Some(Ok))],
             stores := Init(c).stores[n := map[k := x]],
             log := [Invoked(Set(k, x)), Cleared(0, n), Served(0, n, true, Ok)])
  }

  lemma HalfWriteStates(c: Config, v: Overlap, k: Key, x: Value)
    requires ValidConfig(c)
    ensures Permitted(c, CrashStop, v, Init(c), Begin(0, Set(k, x)))
    ensures var s1 := Step(c, Init(c), Begin(0, Set(k, x)));
            && Permitted(c, CrashStop, v, s1, Consult(0))
            && var s2 := Step(c, s1, Consult(0));
            && Permitted(c, CrashStop, v, s2, Perform(0)) && Step(c, s2, Perform(0)) == HalfWritten(c, k, x)
  {
    assert c.prefs(k)[0] in c.nodes;
  }

  lemma HalfWrite(c: Config, v: Overlap, k: Key, x: Value) returns (ls: seq<Label>)
    requires ValidConfig(c)
    ensures Run(c, CrashStop, v, ls) && After(c, ls) == HalfWritten(c, k, x)
  {
    ls := [];
    HalfWriteStates(c, v, k, x);
    Extend(c, CrashStop, v, ls, Begin(0, Set(k, x)));
    ls := ls + [Begin(0, Set(k, x))];
    Extend(c, CrashStop, v, ls, Consult(0));
    ls := ls + [Consult(0)];
    Extend(c, CrashStop, v, ls, Perform(0));
    ls := ls + [Perform(0)];
  }

  /** A read whose first `i` replicas do not answer returns what the next one holds. */
  function FirstLost(i: nat): nat -> Fate {
    j => if j < i then Lost(false, "") else Delivered
  }

  lemma ReadsAtPrimary(prefs: seq<Node>, k: Key, stores: map<Node, Store>, alive: map<Node, bool>, fates: nat -> Fate)
    requires 0 < |prefs| && (forall j :: 0 <= j < |prefs| ==> prefs[j] in stores) && Up(alive, prefs[0]) && fates(0).Delivered?
    ensures Routed(prefs, 0, Get(k), stores, alive, None, fates) == Outcome(stores, alive, Exec(stores[prefs[0]], Get(k)).1)
  {
    assert stores[prefs[0] := stores[prefs[0]]] == stores;
  }

  lemma ReadsAtSecond(prefs: seq<Node>, k: Key, stores: map<Node, Store>, alive: map<Node, bool>)
    requires 2 <= |prefs| && (forall j :: 0 <= j < |prefs| ==> prefs[j] in stores) && prefs[0] != prefs[1]
    requires Up(alive, prefs[0]) && Up(alive, prefs[1])
    ensures Routed(prefs, 0, Get(k), stores, alive, None, FirstLost(1))
            == Outcome(stores, alive[prefs[0] := false], Exec(stores[prefs[1]], Get(k)).1)
  {
    assert stores[prefs[1] := stores[prefs[1]]] == stores;
    assert Routed(prefs, 0, Get(k), stores, alive, None, FirstLost(1))
           == Routed(prefs, 1, Get(k), stores, alive[prefs[0] := false], None, FirstLost(1));
  }

  /** A read while the write is half done returns its value. */
  lemma ReadHalf(c: Config, v: Overlap, k: Key, x: Value) returns (ls: seq<Label>)
    requires ValidConfig(c) && v != WriterAlone
    ensures Run(c, CrashStop, v, ls)
    ensures var s := HalfWritten(c, k, x); RoutedFrom(CrashStop, s, After(c, ls), Get(k), Outcome(s.stores, s.alive, ValueIs(x)))
  {
    var ls0 := HalfWrite(c, v, k, x);
    var s := HalfWritten(c, k, x);
    assert s.stores.Keys == c.nodes && forall j :: 0 <= j < |c.prefs(k)| ==> Up(s.alive, c.prefs(k)[j]);
    ls := RoutingContinues(c, CrashStop, v, ls0, 1, Get(k), AllDelivered());
    ReadsAtPrimary(c.prefs(k), k, s.stores, s.alive, AllDelivered());
  }

  lemma Unchanged(f: Faults, s: State, s': State, req: Request, resp: Response)
    requires RoutedFrom(f, s, s', req, Outcome(s.stores, s.alive, resp))
    ensures s' == s.(log := s'.log)
  {
    assert Downed(s.alive, s.alive) == {};
  }

  /** What remains of a half done write after the primary crashed. */
  function Abandoned(c: Config, k: Key, x: Value, log: Log): State
    requires |c.prefs(k)| > 0
  {
    HalfWritten(c, k, x).(crashed := {c.prefs(k)[0]}, log := log)
  }

  /** The read, then a crash of the primary. */
  lemma CrashAfterRead(c: Config, v: Overlap, k: Key, x: Value) returns (ls: seq<Label>, log: Log)
    requires ValidConfig(c) && v != WriterAlone
    ensures Run(c, CrashStop, v, ls) && var s := HalfWritten(c, k, x); var n := c.prefs(k)[0];
            && After(c, ls) == Abandoned(c, k, x, log + [Crashed(n)])
            && Own(s.log + [Invoked(Get(k))], log, |s.log|) && log[|log| - 1] == Responded(|s.log|, ValueIs(x))
  {
    var ls1 := ReadHalf(c, v, k, x);
    var s, n := HalfWritten(c, k, x), c.prefs(k)[0];
    Unchanged(CrashStop, s, After(c, ls1), Get(k), ValueIs(x));
    log := After(c, ls1).log;
    Extend(c, CrashStop, v, ls1, Crash(n));
    ls := ls1 + [Crash(n)];
  }

  /** Two reads of a key, one after the other: the first finds a value, the second does not, and nobody ever deletes. */
  predicate Backwards(log: Log, k: Key, a: nat, ja: nat, b: nat, jb: nat) {
    && a < ja < b < jb < |log| && log[a] == Invoked(Get(k)) && log[b] == Invoked(Get(k))
    && log[ja].Responded? && log[ja].id == a && log[ja].resp.ValueIs? && log[jb] == Responded(b, NotFound)
    && forall w :: 0 <= w < |log| ==> log[w] != Invoked(Delete(k))
  }

  lemma {:induction false} KeyStays(order: seq<Done>, k: Key, x: nat, y: nat)
    requires x <= y <= |order| && k in MapAfter(order[..x]) && forall z :: 0 <= z < |order| ==> order[z].req != Delete(k)
    ensures k in MapAfter(order[..y])
  {
    if x < y {
      KeyStays(order, k, x, y - 1);
      assert order[..y][..y - 1] == order[..y - 1];
    }
  }

  lemma Position(log: Log, order: seq<Done>, j: nat) returns (x: nat)
    requires Linearization(log, order) && j < |log| && log[j].Responded? && !log[j].resp.Error?
    ensures x < |order| && order[x].id == log[j].id && order[x].resp == log[j].resp
    ensures order[x].resp == Exec(MapAfter(order[..x]), order[x].req).1
  {
    assert Contains(order, log[j].id, log[j].resp);
    x :| 0 <= x < |order| && order[x].id == log[j].id && order[x].resp == log[j].resp;
  }

  /** No linearization has the second read miss what the first one found. */
  lemma LaterReadFinds(log: Log, k: Key, a: nat, ja: nat, b: nat, jb: nat, order: seq<Done>)
    requires a < ja < b < jb < |log| && log[a] == Invoked(Get(k)) && log[b] == Invoked(Get(k)) && Linearization(log, order)
    requires log[ja].Responded? && log[ja].id == a && log[ja].resp.ValueIs?
    requires log[jb].Responded? && log[jb].id == b && !log[jb].resp.Error?
    requires forall w :: 0 <= w < |log| ==> log[w] != Invoked(Delete(k))
    ensures log[jb].resp.ValueIs?
  {
    var x := Position(log, order, ja);
    var y := Position(log, order, jb);
    assert x < y;
    KeyStays(order, k, x, y);
  }

  lemma BackwardsIsNotLinearizable(log: Log, k: Key, a: nat, ja: nat, b: nat, jb: nat)
    requires Backwards(log, k, a, ja, b, jb)
    ensures !Linearizable(log)
  {
    forall order ensures !Linearization(log, order) {
      if Linearization(log, order) { LaterReadFinds(log, k, a, ja, b, jb, order); }
    }
  }

  lemma BackwardsLog(log0: Log, log: Log, log': Log, k: Key, n: Node, x: Value)
    requires Own(log0 + [Invoked(Get(k))], log, |log0|) && log[|log| - 1] == Responded(|log0|, ValueIs(x))
    requires var mid := log + [Crashed(n)];
             Own(mid + [Invoked(Get(k))], log', |mid|) && log'[|log'| - 1] == Responded(|mid|, NotFound)
    requires forall w :: 0 <= w < |log0| ==> log0[w] != Invoked(Delete(k))
    ensures Backwards(log', k, |log0|, |log| - 1, |log| + 1, |log'| - 1)
  {
    var pre, mid := log0 + [Invoked(Get(k))], log + [Crashed(n)] + [Invoked(Get(k))];
    assert log[|log0|] == pre[|log0|] && log'[|log| + 1] == mid[|log| + 1];
    forall w | 0 <= w < |log'| ensures log'[w] != Invoked(Delete(k)) {
      if w < |mid| { assert log'[w] == mid[w]; }
      if w < |log| { assert mid[w] == log[w]; }
      if w < |pre| { assert log[w] == pre[w]; }
    }
    assert log'[|log| - 1] == mid[|log| - 1];
  }

  lemma AbandonedFacts(c: Config, v: Overlap, k: Key, x: Value, log: Log)
    requires ValidConfig(c) && v != WriterAlone && |c.prefs(k)| >= 2
    ensures var s, prefs := Abandoned(c, k, x, log), c.prefs(k);
            && s.stores.Keys == c.nodes && (forall n :: n in c.nodes ==> Up(s.alive, n))
            && Permitted(c, CrashStop, v, s, Begin(1, Get(k))) && FatesAllowed(CrashStop, s, prefs, FirstLost(1))
            && Routed(prefs, 0, Get(k), s.stores, s.alive, None, FirstLost(1))
               == Outcome(s.stores, s.alive[prefs[0] := false], NotFound)
            && Downed(s.alive, s.alive[prefs[0] := false]) == {prefs[0]}
  {
    var s, prefs := Abandoned(c, k, x, log), c.prefs(k);
    assert prefs[0] in c.nodes && prefs[1] in c.nodes && prefs[0] != prefs[1];
    ReadsAtSecond(prefs, k, s.stores, s.alive);
    forall j | 0 <= j < |prefs| ensures FateAllowed(CrashStop, s.crashed, prefs[j], FirstLost(1)(j)) {
      assert j > 0 ==> prefs[j] != prefs[0];
    }
  }

  /** After the crash, a read finds the primary gone and the next replica without the value. */
  lemma ReadElsewhere(c: Config, v: Overlap, ls: seq<Label>, k: Key, x: Value, log: Log) returns (ls': seq<Label>)
    requires ValidConfig(c) && v != WriterAlone && |c.prefs(k)| >= 2 && Run(c, CrashStop, v, ls)
    requires After(c, ls) == Abandoned(c, k, x, log)
    ensures Run(c, CrashStop, v, ls') && After(c, ls').crashed == {c.prefs(k)[0]}
    ensures Own(log + [Invoked(Get(k))], After(c, ls').log, |log|)
    ensures After(c, ls').log[|After(c, ls').log| - 1] == Responded(|log|, NotFound)
  {
    AbandonedFacts(c, v, k, x, log);
    ls' := RoutingContinues(c, CrashStop, v, ls, 1, Get(k), FirstLost(1));
  }

  /** One writer, a read that overlaps it, and a crash of the primary suffice to leave linearizability. */
  lemma OverlapAndOneCrash(c: Config, v: Overlap, k: Key) returns (ls: seq<Label>)
    requires ValidConfig(c) && v != WriterAlone && |c.prefs(k)| >= 2
    ensures Run(c, CrashStop, v, ls) && After(c, ls).crashed == {c.prefs(k)[0]} && !Linearizable(After(c, ls).log)
  {
    var ls1, log := CrashAfterRead(c, v, k, "a");
    var log0, n := HalfWritten(c, k, "a").log, c.prefs(k)[0];
    ls := ReadElsewhere(c, v, ls1, k, "a", log + [Crashed(n)]);
    var log' := After(c, ls).log;
    BackwardsLog(log0, log, log', k, n, "a");
    BackwardsIsNotLinearizable(log', k, |log0|, |log| - 1, |log| + 1, |log'| - 1);
  }

  // ---------- The discipline that is needed ----------

  ghost predicate AlwaysLinearizable(c: Config, v: Overlap) {
    forall ls :: Run(c, CrashStop, v, ls) ==> Linearizable(After(c, ls).log)
  }

  lemma {:induction false} Loosen(c: Config, f: Faults, v: Overlap, ls: seq<Label>)
    requires Run(c, f, v, ls)
    ensures Run(c, f, Unrestricted, ls)
  {
    if ls != [] { Loosen(c, f, v, ls[..|ls| - 1]); }
  }

  /** Crash-stop runs are all linearizable if and only if nothing overlaps a write of its key, or nothing is replicated:
      keeping only the writers of a key apart is not enough. */
  lemma DisciplineNeeded(c: Config, v: Overlap)
    requires ValidConfig(c)
    ensures AlwaysLinearizable(c, v) <==> v == WriterAlone || forall k :: |c.prefs(k)| == 1
  {
    if v == WriterAlone {
      forall ls | Run(c, CrashStop, v, ls) ensures Linearizable(After(c, ls).log) { CrashStopRefinement(c, ls); }
    } else if k :| |c.prefs(k)| != 1 {
      var ls := OverlapAndOneCrash(c, v, k);
    } else {
      forall ls | Run(c, CrashStop, v, ls) ensures Linearizable(After(c, ls).log) {
        Loosen(c, CrashStop, v, ls);
        SingleReplicaLinearizable(c, ls);
      }
    }
  }

  // ---------- A write that failed and was seen ----------

  /** The log once the abandoned write has been given up. */
  function GivenUp(c: Config, k: Key, log: Log): Log
    requires |c.prefs(k)| > 0
  {
    log + [Broke(0, c.prefs(k)[0], true)] + [MarkedDown(c.prefs(k)[0])] + [Responded(0, NoLiveReplica(1))]
  }

  lemma GiveUpStates(c: Config, k: Key, x: Value, log: Log)
    requires ValidConfig(c) && |c.prefs(k)| == 1
    ensures var s := Abandoned(c, k, x, log);
            && Permitted(c, CrashStop, Unrestricted, s, Break(0))
            && var s1 := Step(c, s, Break(0));
            && Permitted(c, CrashStop, Unrestricted, s1, Report(0))
            && var s2 := Step(c, s1, Report(0));
            && Permitted(c, CrashStop, Unrestricted, s2, Return(0)) && Step(c, s2, Return(0)).log == GivenUp(c, k, log)
  {
    var s := Abandoned(c, k, x, log);
    var s1 := Step(c, s, Break(0));
    var s2 := Step(c, s1, Report(0));
    assert AnswerOf(c, s2.ops[0]) == NoLiveReplica(1);
  }

  /** The hard case of an unreplicated key: a node performs a write, shows it to a reader and crashes before replying.
      The write is answered with the error and yet was seen; such runs are linearizable all the same. */
  lemma FailedWriteIsSeen(c: Config, k: Key, x: Value) returns (ls: seq<Label>, j: nat)
    requires ValidConfig(c) && |c.prefs(k)| == 1
    ensures Run(c, CrashStop, Unrestricted, ls)
    ensures var log := After(c, ls).log;
            && 3 < j < |log| - 1 && log[0] == Invoked(Set(k, x)) && log[|log| - 1] == Responded(0, NoLiveReplica(1))
            && log[3] == Invoked(Get(k)) && log[j] == Responded(3, ValueIs(x))
  {
    var log;
    ls, log := CrashAfterRead(c, Unrestricted, k, x);
    j := |log| - 1;
    ls := GiveUp(c, ls, k, x, log + [Crashed(c.prefs(k)[0])]);
    HalfWrittenLog(c, k, x, log);
  }

  lemma HalfWrittenLog(c: Config, k: Key, x: Value, log: Log)
    requires |c.prefs(k)| > 0 && HalfWritten(c, k, x).log + [Invoked(Get(k))] <= log
    ensures |log| > 3 && log[0] == Invoked(Set(k, x)) && log[3] == Invoked(Get(k))
  {
    var log0 := HalfWritten(c, k, x).log + [Invoked(Get(k))];
    assert log[0] == log0[0] && log[3] == log0[3];
  }

  lemma GiveUp(c: Config, ls: seq<Label>, k: Key, x: Value, log: Log) returns (ls': seq<Label>)
    requires ValidConfig(c) && |c.prefs(k)| == 1
    requires Run(c, CrashStop, Unrestricted, ls) && After(c, ls) == Abandoned(c, k, x, log)
    ensures Run(c, CrashStop, Unrestricted, ls') && After(c, ls').log == GivenUp(c, k, log)
  {
    GiveUpStates(c, k, x, log);
    Extend(c, CrashStop, Unrestricted, ls, Break(0));
    ls' := ls + [Break(0)];
    Extend(c, CrashStop, Unrestricted, ls', Report(0));
    ls' := ls' + [Report(0)];
    Extend(c, CrashStop, Unrestricted, ls', Return(0));
    ls' := ls' + [Return(0)];
  }
}
