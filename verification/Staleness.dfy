/** The two reasons for stale data; that each occurs is `StaleRuns`.  Nodes crash and restart empty, exchanges break for
    no reason, replies get lost, healthy nodes are suspected; the only discipline is one writer per key at a time. */
module Staleness {
  import opened KvSpec
  import opened Failover
  import opened History
  import opened FailoverHistory

  /** Request `a` took effect on `n` at this event, whether or not the reply arrived. */
  predicate Applied(e: Event, a: nat, n: Node) {
    Serve(e, a) && e.node == n
  }

  /** Request `a` passed `n` by: the node was skipped as down, or the exchange failed without effect. */
  predicate Missed(e: Event, a: nat, n: Node) {
    e == Skipped(a, n) || e == Broke(a, n, false)
  }

  predicate WriteOf(log: Log, a: nat, k: Key) {
    a < |log| && log[a].Invoked? && IsWrite(log[a].req) && log[a].req.key == k
  }

  predicate WritesAt(log: Log, p: nat, n: Node, k: Key)
    requires p < |log|
  {
    log[p].Served? && log[p].node == n && WriteOf(log[..p], log[p].id, k)
  }

  /** The write of `k` that node `n` shows: the last one applied there since it last started, or -1. */
  function Shown(log: Log, n: Node, k: Key): (a: int)
    ensures a == -1 || (0 <= a && WriteOf(log, a, k))
  {
    if log == [] then -1
    else
      var p := |log| - 1;
      if log[p] == Restarted(n) then -1
      else if WritesAt(log, p, n, k) then log[p].id
      else Shown(log[..p], n, k)
  }

  lemma ShownGrows(log: Log, e: Event, n: Node, k: Key)
    ensures Shown(log + [e], n, k) ==
            if e == Restarted(n) then -1 else if WritesAt(log + [e], |log|, n, k) then e.id else Shown(log, n, k)
  {
    assert (log + [e])[..|log|] == log;
  }

  /** Stores hold what they show, so the number of the shown write says how old the data is. */
  ghost predicate StoresShow(c: Config, s: State) {
    forall n, k :: n in c.nodes ==> Lookup(StoreOf(s, n), k) == ShownValue(s.log, n, k)
  }

  function ShownValue(log: Log, n: Node, k: Key): Option<Value> {
    var a := Shown(log, n, k);
    if a < 0 then None else Effect(log[a].req)
  }

  lemma ShownValueGrows(log: Log, e: Event, n: Node, k: Key)
    ensures ShownValue(log + [e], n, k) ==
            if e == Restarted(n) then None
            else if WritesAt(log + [e], |log|, n, k) then Effect(log[e.id].req) else ShownValue(log, n, k)
  {
    ShownGrows(log, e, n, k);
    assert (log + [e])[..|log|] == log;
  }

  /** What a step leaves in a store under a key. */
  lemma StoreAfter(c: Config, s: State, l: Label, n: Node, k: Key)
    requires Enabled(c, s, l) && (l.Perform? ==> !s.ops[l.t].req.Ping?)
    ensures Lookup(StoreOf(Step(c, s, l), n), k) ==
            if l == Restart(n) then None
            else if l.Perform? && Target(c, s.ops[l.t]) == n && IsWrite(s.ops[l.t].req) && s.ops[l.t].req.key == k
                 then Effect(s.ops[l.t].req)
            else Lookup(StoreOf(s, n), k)
  {
  }

  lemma StoreShows(c: Config, s: State, l: Label, n: Node, k: Key)
    requires StoresShow(c, s) && Enabled(c, s, l) && n in c.nodes
    requires l.Perform? ==> OpShape(c, s.log, s.ops[l.t])
    ensures Lookup(StoreOf(Step(c, s, l), n), k) == ShownValue(Step(c, s, l).log, n, k)
  {
    var e := EventOf(c, s, l);
    ShownValueGrows(s.log, e, n, k);
    StoreAfter(c, s, l, n, k);
    assert (s.log + [e])[..|s.log|] == s.log;
    assert Lookup(StoreOf(s, n), k) == ShownValue(s.log, n, k);
  }

  lemma StoresShowStep(c: Config, s: State, l: Label)
    requires Shape(c, s) && StoresShow(c, s) && Enabled(c, s, l)
    ensures StoresShow(c, Step(c, s, l))
  {
    forall n, k | n in c.nodes ensures Lookup(StoreOf(Step(c, s, l), n), k) == ShownValue(Step(c, s, l).log, n, k) {
      StoreShows(c, s, l, n, k);
    }
  }

  predicate IdsComeFirst(log: Log) {
    forall p :: 0 <= p < |log| && log[p].Served? ==> log[p].id < p
  }

  // ---------- One writer per key ----------

  /** No write of the key has been applied anywhere that is newer than the write in progress. */
  ghost predicate WriterIsNewest(s: State) {
    forall t, p, n :: t in s.ops && IsWrite(s.ops[t].req) && 0 <= p < |s.log| && WritesAt(s.log, p, n, s.ops[t].req.key) ==>
      s.log[p].id <= s.ops[t].id
  }

  lemma NewestAt(c: Config, s: State, l: Label, t: nat, p: nat, n: Node)
    requires WriterIsNewest(s) && Enabled(c, s, l) && OneWriterPerKey(Step(c, s, l))
    requires l.Perform? ==> OpShape(c, s.log, s.ops[l.t])
    requires var s' := Step(c, s, l);
             t in s'.ops && IsWrite(s'.ops[t].req) && p < |s'.log| && WritesAt(s'.log, p, n, s'.ops[t].req.key)
    ensures Step(c, s, l).log[p].id <= Step(c, s, l).ops[t].id
  {
    var s' := Step(c, s, l);
    OpsKeepIdentity(c, s, l);
    assert s'.log[..p] == s.log[..p];
    if p < |s.log| {
      assert WritesAt(s.log, p, n, s'.ops[t].req.key);
    } else {
      assert l.t == t;
    }
  }

  lemma NewestStep(c: Config, s: State, l: Label)
    requires Shape(c, s) && WriterIsNewest(s) && Enabled(c, s, l) && OneWriterPerKey(Step(c, s, l))
    ensures WriterIsNewest(Step(c, s, l))
  {
    var s' := Step(c, s, l);
    forall t, p, n | t in s'.ops && IsWrite(s'.ops[t].req) && 0 <= p < |s'.log| && WritesAt(s'.log, p, n, s'.ops[t].req.key)
      ensures s'.log[p].id <= s'.ops[t].id
    {
      NewestAt(c, s, l, t, p, n);
    }
  }

  // ---------- Every write reaches or misses every replica ----------

  predicate Reached(log: Log, a: nat, n: Node) {
    exists p :: 0 <= p < |log| && (Applied(log[p], a, n) || Missed(log[p], a, n))
  }

  lemma ReachedGrows(log: Log, e: Event, a: nat, n: Node)
    ensures Reached(log, a, n) ==> Reached(log + [e], a, n)
    ensures Applied(e, a, n) || Missed(e, a, n) ==> Reached(log + [e], a, n)
  {
    var log' := log + [e];
    if Reached(log, a, n) {
      var p :| 0 <= p < |log| && (Applied(log[p], a, n) || Missed(log[p], a, n));
      assert log'[p] == log[p];
    }
    assert log'[|log|] == e;
  }

  /** The loop has dealt with position `j`: it is past it, or the exchange there has been performed or has failed. */
  predicate PassedBy(o: Op, j: nat) {
    j < o.i || (j == o.i && (o.phase == Awaiting || o.phase == Failing))
  }

  predicate OpPassed(c: Config, log: Log, o: Op) {
    forall j :: 0 <= j < |Prefs(c, o)| && PassedBy(o, j) ==> Reached(log, o.id, Prefs(c, o)[j])
  }

  ghost predicate AnsweredPassed(c: Config, log: Log, q: nat)
    requires q < |log| && log[q].Responded?
  {
    forall k, n :: WriteOf(log, log[q].id, k) && n in c.prefs(k) ==> Reached(log, log[q].id, n)
  }

  ghost predicate PassedInv(c: Config, s: State) {
    && (forall t :: t in s.ops ==> OpPassed(c, s.log, s.ops[t]))
    && (forall q :: 0 <= q < |s.log| && s.log[q].Responded? ==> AnsweredPassed(c, s.log, q))
  }

  /** A position newly dealt with is the one the step's event is about. */
  lemma NewlyPassed(c: Config, s: State, l: Label, j: nat)
    requires Enabled(c, s, l) && Actor(l) >= 0 && !l.Return? && !l.Begin?
    requires j < |Prefs(c, s.ops[Actor(l)])| && PassedBy(OpAfter(c, s, l), j) && !PassedBy(s.ops[Actor(l)], j)
    ensures var e, o := EventOf(c, s, l), s.ops[Actor(l)]; Applied(e, o.id, Prefs(c, o)[j]) || Missed(e, o.id, Prefs(c, o)[j])
  {
  }

  lemma OpPassedStep(c: Config, s: State, l: Label, t: nat)
    requires Enabled(c, s, l) && t in Step(c, s, l).ops && (t in s.ops ==> OpPassed(c, s.log, s.ops[t]))
    ensures OpPassed(c, Step(c, s, l).log, Step(c, s, l).ops[t])
  {
    var e, o := EventOf(c, s, l), Step(c, s, l).ops[t];
    forall j | 0 <= j < |Prefs(c, o)| && PassedBy(o, j) ensures Reached(s.log + [e], o.id, Prefs(c, o)[j]) {
      OpsKeepIdentity(c, s, l);
      if !PassedBy(s.ops[t], j) { NewlyPassed(c, s, l, j); }
      ReachedGrows(s.log, e, o.id, Prefs(c, o)[j]);
    }
  }

  lemma NowAnswered(c: Config, s: State, t: nat, k: Key, n: Node)
    requires Enabled(c, s, Return(t)) && OpShape(c, s.log, s.ops[t]) && OpPassed(c, s.log, s.ops[t])
    requires WriteOf(s.log, s.ops[t].id, k) && n in c.prefs(k)
    ensures Reached(s.log, s.ops[t].id, n)
  {
    var o := s.ops[t];
    var j :| 0 <= j < |c.prefs(k)| && c.prefs(k)[j] == n;
    assert PassedBy(o, j);
  }

  lemma AnsweredPassedStep(c: Config, s: State, l: Label, q: nat)
    requires Enabled(c, s, l) && q < |s.log| + 1 && (s.log + [EventOf(c, s, l)])[q].Responded?
    requires q < |s.log| ==> Accounted(s.log, q) && AnsweredPassed(c, s.log, q)
    requires l.Return? ==> OpShape(c, s.log, s.ops[l.t]) && OpPassed(c, s.log, s.ops[l.t])
    ensures AnsweredPassed(c, s.log + [EventOf(c, s, l)], q)
  {
    var e := EventOf(c, s, l);
    var log' := s.log + [e];
    forall k, n | WriteOf(log', log'[q].id, k) && n in c.prefs(k) ensures Reached(log', log'[q].id, n) {
      ReachedGrows(s.log, e, log'[q].id, n);
      if q < |s.log| {
        assert WriteOf(s.log, s.log[q].id, k);
      } else {
        NowAnswered(c, s, l.t, k, n);
      }
    }
  }

  lemma PassedStep(c: Config, s: State, l: Label)
    requires Shape(c, s) && PassedInv(c, s) && Enabled(c, s, l)
    ensures PassedInv(c, Step(c, s, l))
  {
    var s' := Step(c, s, l);
    forall t | t in s'.ops ensures OpPassed(c, s'.log, s'.ops[t]) {
      OpPassedStep(c, s, l, t);
    }
    forall q | 0 <= q < |s'.log| && s'.log[q].Responded? ensures AnsweredPassed(c, s'.log, q) {
      AnsweredPassedStep(c, s, l, q);
    }
  }

  // ---------- An applied write stays visible until a restart ----------

  predicate RestartedAfter(log: Log, n: Node, p: nat) {
    exists r :: p < r < |log| && log[r] == Restarted(n)
  }

  predicate MarkedUpAfter(log: Log, n: Node, m: nat) {
    exists u :: m < u < |log| && log[u] == MarkedUp(n)
  }

  lemma LaterGrows(log: Log, e: Event, n: Node, p: nat)
    requires p < |log|
    ensures RestartedAfter(log, n, p) || e == Restarted(n) ==> RestartedAfter(log + [e], n, p)
    ensures MarkedUpAfter(log, n, p) || e == MarkedUp(n) ==> MarkedUpAfter(log + [e], n, p)
  {
    var log' := log + [e];
    assert log'[|log|] == e;
    if RestartedAfter(log, n, p) {
      var r :| p < r < |log| && log[r] == Restarted(n);
      assert log'[r] == log[r];
    }
    if MarkedUpAfter(log, n, p) {
      var u :| p < u < |log| && log[u] == MarkedUp(n);
      assert log'[u] == log[u];
    }
  }

  ghost predicate StaysVisible(log: Log) {
    forall p, n, k :: 0 <= p < |log| && WritesAt(log, p, n, k) ==> Shown(log, n, k) >= log[p].id || RestartedAfter(log, n, p)
  }

  lemma StaysVisibleAt(c: Config, s: State, l: Label, p: nat, n: Node, k: Key)
    requires Shape(c, s) && WriterIsNewest(s) && StaysVisible(s.log) && Enabled(c, s, l)
    requires p < |s.log| && WritesAt(s.log, p, n, k)
    ensures var log' := s.log + [EventOf(c, s, l)]; Shown(log', n, k) >= s.log[p].id || RestartedAfter(log', n, p)
  {
    var e := EventOf(c, s, l);
    ShownGrows(s.log, e, n, k);
    LaterGrows(s.log, e, n, p);
    if WritesAt(s.log + [e], |s.log|, n, k) {
      assert (s.log + [e])[..|s.log|] == s.log;
      assert s.log[p].id <= s.ops[l.t].id;
    }
  }

  lemma StaysVisibleStep(c: Config, s: State, l: Label)
    requires Shape(c, s) && WriterIsNewest(s) && StaysVisible(s.log) && Enabled(c, s, l)
    ensures StaysVisible(Step(c, s, l).log)
  {
    var log', e := Step(c, s, l).log, EventOf(c, s, l);
    forall p, n, k | 0 <= p < |log'| && WritesAt(log', p, n, k)
      ensures Shown(log', n, k) >= log'[p].id || RestartedAfter(log', n, p)
    {
      if p < |s.log| {
        assert log'[..p] == s.log[..p] && log'[p] == s.log[p];
        StaysVisibleAt(c, s, l, p, n, k);
      } else {
        ShownGrows(s.log, e, n, k);
      }
    }
  }

  // ---------- A node that missed a write is not read again before it is marked up ----------

  predicate StillFailing(c: Config, s: State, a: nat, n: Node) {
    exists t :: t in s.ops && s.ops[t].id == a && AtReplica(c, s, t, Failing) && Target(c, s.ops[t]) == n
  }

  ghost predicate MissedIsDown(c: Config, s: State) {
    forall m, a, n :: 0 <= m < |s.log| && Missed(s.log[m], a, n) ==> Out(c, s, m, a, n)
  }

  predicate Out(c: Config, s: State, m: nat, a: nat, n: Node) {
    MarkedUpAfter(s.log, n, m) || !IsAlive(s, n) || StillFailing(c, s, a, n)
  }

  lemma FailingStays(c: Config, s: State, l: Label, a: nat, n: Node)
    requires Enabled(c, s, l) && StillFailing(c, s, a, n)
    ensures StillFailing(c, Step(c, s, l), a, n) || l.Report?
    ensures l.Report? ==> StillFailing(c, Step(c, s, l), a, n) || !IsAlive(Step(c, s, l), n)
  {
    var t :| t in s.ops && s.ops[t].id == a && AtReplica(c, s, t, Failing) && Target(c, s.ops[t]) == n;
    if t != Actor(l) { assert AtReplica(c, Step(c, s, l), t, Failing); }
  }

  lemma StaysOut(c: Config, s: State, l: Label, m: nat, a: nat, n: Node)
    requires Enabled(c, s, l) && m < |s.log| && Out(c, s, m, a, n)
    ensures Out(c, Step(c, s, l), m, a, n)
  {
    LaterGrows(s.log, EventOf(c, s, l), n, m);
    if StillFailing(c, s, a, n) { FailingStays(c, s, l, a, n); }
  }

  lemma MissedIsDownStep(c: Config, s: State, l: Label)
    requires MissedIsDown(c, s) && Enabled(c, s, l)
    ensures MissedIsDown(c, Step(c, s, l))
  {
    var s' := Step(c, s, l);
    forall m, a, n | 0 <= m < |s'.log| && Missed(s'.log[m], a, n) ensures Out(c, s', m, a, n) {
      if m < |s.log| {
        StaysOut(c, s, l, m, a, n);
      } else if l.Break? {
        assert AtReplica(c, s', l.t, Failing);
      }
    }
  }

  /** A request about to be sent to `n` was cleared after `n` came back from every answered write it missed. */
  ghost predicate OpVetted(c: Config, log: Log, o: Op) {
    o.phase == Sending && o.i < |Prefs(c, o)| ==>
      forall q, m :: 0 <= q < o.id && q < |log| && log[q].Responded?
                     && 0 <= m < |log| && Missed(log[m], log[q].id, Target(c, o)) ==>
        MarkedUpAfter(log, Target(c, o), m)
  }

  lemma NewMissIsActive(c: Config, s: State, l: Label, a: nat, n: Node)
    requires Enabled(c, s, l) && Missed(EventOf(c, s, l), a, n)
    ensures exists u :: u in s.ops && s.ops[u].id == a
  {
    assert s.ops[l.t].id == a;
  }

  lemma OpVettedStep(c: Config, s: State, l: Label, t: nat)
    requires AnswersAreFinal(s) && MissedIsDown(c, s) && Enabled(c, s, l) && t in Step(c, s, l).ops
    requires t in s.ops ==> OpVetted(c, s.log, s.ops[t]) && s.ops[t].id < |s.log|
    ensures OpVetted(c, Step(c, s, l).log, Step(c, s, l).ops[t])
  {
    var s', e := Step(c, s, l), EventOf(c, s, l);
    var o, log' := s'.ops[t], s'.log;
    if o.phase == Sending && o.i < |Prefs(c, o)| {
      var n := Target(c, o);
      forall q, m | 0 <= q < o.id && q < |log'| && log'[q].Responded? && 0 <= m < |log'| && Missed(log'[m], log'[q].id, n)
        ensures MarkedUpAfter(log', n, m)
      {
        assert q < |s.log| && log'[q] == s.log[q];
        if m == |s.log| {
          NewMissIsActive(c, s, l, log'[q].id, n);
          assert false;
        }
        LaterGrows(s.log, e, n, m);
        if l == Consult(t) {
          assert IsAlive(s, n) && !StillFailing(c, s, s.log[q].id, n);
        }
      }
    }
  }

  // ---------- Bounded staleness ----------

  /** Before `end`, `n` applied write `a` and then restarted, or missed it and was marked up again. */
  predicate Explained(log: Log, end: nat, a: nat, n: Node)
    requires end <= |log|
  {
    exists x, y :: 0 <= x < y < end &&
      ((Applied(log[x], a, n) && log[y] == Restarted(n)) || (Missed(log[x], a, n) && log[y] == MarkedUp(n)))
  }

  /** The read of `k` served at `p` began after the write answered at `q`, yet was given older data. */
  predicate Stale(log: Log, p: nat, q: nat, k: Key)
    requires p < |log|
  {
    && log[p].Served? && log[p].id < p && log[log[p].id] == Invoked(Get(k))
    && q < log[p].id && log[q].Responded? && WriteOf(log, log[q].id, k)
    && Shown(log[..p], log[p].node, k) < log[q].id
  }

  ghost predicate StaleReadsExplained(log: Log) {
    forall p, q, k :: 0 <= p < |log| && 0 <= q < p && Stale(log, p, q, k) ==> Explained(log, p, log[q].id, log[p].node)
  }

  ghost predicate StalenessInv(c: Config, s: State) {
    && ValidConfig(c) && Shape(c, s) && StoresShow(c, s) && OneWriterPerKey(s) && WriterIsNewest(s) && PassedInv(c, s)
    && IdsComeFirst(s.log) && StaysVisible(s.log) && MissedIsDown(c, s)
    && (forall t :: t in s.ops ==> OpVetted(c, s.log, s.ops[t]))
    && StaleReadsExplained(s.log)
  }

  lemma ExplainedStays(log: Log, log': Log, end: nat, a: nat, n: Node)
    requires end <= |log| && log <= log' && Explained(log, end, a, n)
    ensures Explained(log', end, a, n)
  {
    var x, y :| 0 <= x < y < end && ((Applied(log[x], a, n) && log[y] == Restarted(n))
                                     || (Missed(log[x], a, n) && log[y] == MarkedUp(n)));
    assert log'[x] == log[x] && log'[y] == log[y];
  }

  lemma ReasonFor(log: Log, a: nat, k: Key, n: Node)
    requires IdsComeFirst(log) && StaysVisible(log) && WriteOf(log, a, k) && Reached(log, a, n)
    requires Shown(log, n, k) < a
    requires forall m :: 0 <= m < |log| && Missed(log[m], a, n) ==> MarkedUpAfter(log, n, m)
    ensures Explained(log, |log|, a, n)
  {
    var p :| 0 <= p < |log| && (Applied(log[p], a, n) || Missed(log[p], a, n));
    if Applied(log[p], a, n) {
      assert WritesAt(log, p, n, k);
      var r :| p < r < |log| && log[r] == Restarted(n);
    } else {
      var u :| p < u < |log| && log[u] == MarkedUp(n);
    }
  }

  lemma FreshReason(c: Config, log: Log, o: Op, q: nat, k: Key)
    requires IdsComeFirst(log) && StaysVisible(log) && OpVetted(c, log, o)
    requires o.phase == Sending && o.i < |Prefs(c, o)| && o.req == Get(k) && q < o.id < |log| && log[q].Responded?
    requires AnsweredPassed(c, log, q) && WriteOf(log, log[q].id, k) && Shown(log, Target(c, o), k) < log[q].id
    ensures Explained(log, |log|, log[q].id, Target(c, o))
  {
    assert Target(c, o) in c.prefs(k);
    ReasonFor(log, log[q].id, k, Target(c, o));
  }

  lemma FreshReadExplained(c: Config, s: State, l: Label, q: nat, k: Key)
    requires StalenessInv(c, s) && Enabled(c, s, l)
    requires Stale(Step(c, s, l).log, |s.log|, q, k)
    ensures var log' := Step(c, s, l).log; Explained(log', |s.log|, log'[q].id, log'[|s.log|].node)
  {
    var log, log' := s.log, Step(c, s, l).log;
    assert log'[..|log|] == log;
    var o := s.ops[l.t];
    assert OpVetted(c, log, o) && OpShape(c, log, o) && Accounted(log, q);
    FreshReason(c, log, o, q, k);
    ExplainedStays(log, log', |log|, log[q].id, Target(c, o));
  }

  lemma OldReadExplained(log: Log, e: Event, p: nat, q: nat, k: Key)
    requires LogShape(log) && StaleReadsExplained(log) && p < |log| && q < p && Stale(log + [e], p, q, k)
    ensures Explained(log + [e], p, log[q].id, log[p].node)
  {
    assert (log + [e])[..p] == log[..p] && (log + [e])[q] == log[q] && (log + [e])[p] == log[p];
    assert Accounted(log, q) && Stale(log, p, q, k);
    ExplainedStays(log, log + [e], p, log[q].id, log[p].node);
  }

  lemma StaleReadsStep(c: Config, s: State, l: Label)
    requires StalenessInv(c, s) && Enabled(c, s, l)
    ensures StaleReadsExplained(Step(c, s, l).log)
  {
    var log, e := s.log, EventOf(c, s, l);
    var log' := log + [e];
    forall p, q, k | 0 <= p < |log'| && 0 <= q < p && Stale(log', p, q, k)
      ensures Explained(log', p, log'[q].id, log'[p].node)
    {
      if p < |log| {
        OldReadExplained(log, e, p, q, k);
      } else {
        FreshReadExplained(c, s, l, q, k);
      }
    }
  }

  lemma StalenessStep(c: Config, s: State, l: Label)
    requires StalenessInv(c, s) && Permitted(c, Anything, OneWriter, s, l)
    ensures StalenessInv(c, Step(c, s, l))
  {
    ShapeStep(c, s, l);
    StoresShowStep(c, s, l);
    OneWriterStep(c, s, l);
    NewestStep(c, s, l);
    PassedStep(c, s, l);
    StaysVisibleStep(c, s, l);
    MissedIsDownStep(c, s, l);
    forall t | t in Step(c, s, l).ops ensures OpVetted(c, Step(c, s, l).log, Step(c, s, l).ops[t]) {
      OpVettedStep(c, s, l, t);
    }
    StaleReadsStep(c, s, l);
  }

  lemma {:induction false} StalenessRun(c: Config, ls: seq<Label>)
    requires ValidConfig(c) && Run(c, Anything, OneWriter, ls)
    ensures StalenessInv(c, After(c, ls))
  {
    if ls != [] {
      StalenessRun(c, ls[..|ls| - 1]);
      StalenessStep(c, After(c, ls[..|ls| - 1]), ls[|ls| - 1]);
    }
  }

  // ---------- What a read returns is what its node shows ----------

  function ReplyShowing(v: Option<Value>): Response {
    match v
    case Some(x) => ValueIs(x)
    case None => NotFound
  }

  predicate ReadShows(log: Log, p: nat)
    requires p < |log|
  {
    log[p].Served? && log[p].id < p && log[log[p].id].Invoked? && log[log[p].id].req.Get? ==>
      log[p].resp == ReplyShowing(ShownValue(log[..p], log[p].node, log[log[p].id].req.key))
  }

  lemma NewReadShows(c: Config, s: State, l: Label)
    requires Shape(c, s) && StoresShow(c, s) && Enabled(c, s, l)
    ensures ReadShows(s.log + [EventOf(c, s, l)], |s.log|)
  {
    var e := EventOf(c, s, l);
    assert (s.log + [e])[..|s.log|] == s.log;
    if l.Perform? {
      var o := s.ops[l.t];
      assert OpShape(c, s.log, o) && (s.log + [e])[o.id] == Invoked(o.req);
      assert Lookup(StoreOf(s, Target(c, o)), o.req.key) == ShownValue(s.log, Target(c, o), o.req.key);
    }
  }

  lemma {:induction false} ShowRun(c: Config, v: Overlap, ls: seq<Label>)
    requires ValidConfig(c) && Run(c, Anything, v, ls)
    ensures var s := After(c, ls); StoresShow(c, s) && forall p :: 0 <= p < |s.log| ==> ReadShows(s.log, p)
  {
    if ls != [] {
      var s, l := After(c, ls[..|ls| - 1]), ls[|ls| - 1];
      ShowRun(c, v, ls[..|ls| - 1]);
      ShapeRun(c, Anything, v, ls[..|ls| - 1]);
      StoresShowStep(c, s, l);
      var log' := s.log + [EventOf(c, s, l)];
      forall p | 0 <= p < |log'| ensures ReadShows(log', p) {
        if p < |s.log| {
          assert ReadShows(s.log, p) && log'[..p] == s.log[..p];
        } else {
          NewReadShows(c, s, l);
        }
      }
    }
  }

  /** In every run, whatever fails and however requests overlap, a read returns the effect of the last write its node
      applied to the key before serving it, or nothing if the node restarted since or never applied one. */
  lemma ReadReturnsShown(c: Config, v: Overlap, ls: seq<Label>, p: nat)
    requires ValidConfig(c) && Run(c, Anything, v, ls) && p < |After(c, ls).log|
    ensures ReadShows(After(c, ls).log, p)
  {
    ShowRun(c, v, ls);
  }

  /** Bounded staleness: a read that began after a write was answered is served older data by a node only if that
      node restarted after applying the write, or missed the write and was later marked up again. */
  lemma StaleReadHasAReason(c: Config, ls: seq<Label>, p: nat, q: nat, k: Key)
    requires ValidConfig(c) && Run(c, Anything, OneWriter, ls)
    requires p < |After(c, ls).log| && Stale(After(c, ls).log, p, q, k)
    ensures var log := After(c, ls).log; Explained(log, p, log[q].id, log[p].node)
  {
    StalenessRun(c, ls);
  }

  /** Write `a` is on every replica of its key, and none of them restarted since. */
  ghost predicate FullyApplied(c: Config, log: Log, a: nat, k: Key) {
    forall n :: n in c.prefs(k) ==> exists p :: 0 <= p < |log| && Applied(log[p], a, n) && !RestartedAfter(log, n, p)
  }

  lemma ShowsIt(c: Config, s: State, a: nat, k: Key, n: Node, p: nat)
    requires n in c.nodes && StoresShow(c, s) && StaysVisible(s.log) && IdsComeFirst(s.log)
    requires WriteOf(s.log, a, k) && (forall b :: a < b < |s.log| ==> !WriteOf(s.log, b, k))
    requires p < |s.log| && Applied(s.log[p], a, n) && !RestartedAfter(s.log, n, p)
    ensures Lookup(StoreOf(s, n), k) == Effect(s.log[a].req)
  {
    assert WritesAt(s.log, p, n, k);
    assert Shown(s.log, n, k) == a;
  }

  /** Healing: once a write has been applied by its whole preference list, and until a newer write of the key begins
      or a replica restarts, all replicas agree on that key, whatever they held before. */
  lemma FullWriteHeals(c: Config, ls: seq<Label>, a: nat, k: Key, n: Node)
    requires ValidConfig(c) && Run(c, Anything, OneWriter, ls)
    requires var log := After(c, ls).log;
             && WriteOf(log, a, k) && FullyApplied(c, log, a, k) && (forall b :: a < b < |log| ==> !WriteOf(log, b, k))
             && n in c.prefs(k)
    ensures var s := After(c, ls); Lookup(StoreOf(s, n), k) == Effect(s.log[a].req)
  {
    StalenessRun(c, ls);
    var s := After(c, ls);
    var p :| 0 <= p < |s.log| && Applied(s.log[p], a, n) && !RestartedAfter(s.log, n, p);
    ShowsIt(c, s, a, k, n, p);
  }
}
