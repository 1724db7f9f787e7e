/** How many crashes a client can notice, and how often a crashed node can be believed alive again. */
module FaultTolerance {
  import opened KvSpec
  import opened Failover
  import opened History
  import opened FailoverHistory
  import opened CrashStop

  lemma {:induction false} SuspicionRun(c: Config, v: Overlap, ls: seq<Label>)
    requires ValidConfig(c) && Run(c, CrashStop, v, ls)
    ensures var s := After(c, ls); Shape(c, s) && SuspicionTrue(c, s) && ErrorsMeanAllCrashed(c, s)
  {
    if ls != [] {
      var s, l := After(c, ls[..|ls| - 1]), ls[|ls| - 1];
      SuspicionRun(c, v, ls[..|ls| - 1]);
      ShapeStep(c, s, l);
      SuspicionTrueStep(c, s, l, v);
      ErrorsStep(c, s, l, v);
    }
  }

  /** Fault tolerance: if fewer nodes have crashed than every preference list is long, nobody was ever told that
      no replica is live, however the requests overlapped. */
  lemma FewCrashesAreInvisible(c: Config, v: Overlap, ls: seq<Label>)
    requires ValidConfig(c) && Run(c, CrashStop, v, ls)
    requires forall k :: |After(c, ls).crashed| < |c.prefs(k)|
    ensures var log := After(c, ls).log; forall j :: 0 <= j < |log| && log[j].Responded? ==> !log[j].resp.Error?
  {
    var s := After(c, ls);
    SuspicionRun(c, v, ls);
    forall j | 0 <= j < |s.log| && s.log[j].Responded? ensures !s.log[j].resp.Error? {
      if s.log[j].resp.Error? {
        NoMoreThan(c.prefs(s.log[s.log[j].id].req.key), s.crashed);
        assert false;
      }
    }
  }

  // ---------- The other direction: crashing a whole preference list is always visible ----------

  /** Replicas outside a key's preference list never serve it, and a crashed node serves nobody. */
  ghost predicate DeadAreSilent(c: Config, s: State) {
    && (forall x :: 0 <= x < |s.log| && s.log[x].Crashed? ==> s.log[x].node in s.crashed)
    && (forall x, p :: 0 <= x < p < |s.log| && s.log[x].Crashed? && s.log[p].Served? ==> s.log[x].node != s.log[p].node)
    && (forall p :: 0 <= p < |s.log| && s.log[p].Served? ==> ServedByReplica(c, s.log, p))
  }

  predicate ServedByReplica(c: Config, log: Log, p: nat)
    requires p < |log| && log[p].Served?
  {
    && log[p].id < |log| && log[log[p].id].Invoked? && !log[log[p].id].req.Ping?
    && log[p].node in c.prefs(log[log[p].id].req.key)
  }

  lemma DeadAreSilentStep(c: Config, s: State, l: Label, v: Overlap)
    requires Shape(c, s) && DeadAreSilent(c, s) && Permitted(c, CrashStop, v, s, l)
    ensures DeadAreSilent(c, Step(c, s, l))
  {
    var s' := Step(c, s, l);
    forall p | 0 <= p < |s'.log| && s'.log[p].Served? ensures ServedByReplica(c, s'.log, p) {
      ReplicaServes(c, s, l, p);
    }
    assert forall x :: 0 <= x < |s.log| ==> s'.log[x] == s.log[x];
  }

  lemma ReplicaServes(c: Config, s: State, l: Label, p: nat)
    requires Shape(c, s) && DeadAreSilent(c, s) && Enabled(c, s, l)
    requires p < |s.log| + 1 && (s.log + [EventOf(c, s, l)])[p].Served?
    ensures ServedByReplica(c, s.log + [EventOf(c, s, l)], p)
  {
    if p < |s.log| {
      assert ServedByReplica(c, s.log, p);
    } else {
      assert OpShape(c, s.log, s.ops[l.t]);
    }
  }

  lemma {:induction false} DeadAreSilentRun(c: Config, v: Overlap, ls: seq<Label>)
    requires ValidConfig(c) && Run(c, CrashStop, v, ls)
    ensures Shape(c, After(c, ls)) && DeadAreSilent(c, After(c, ls))
  {
    ShapeRun(c, CrashStop, v, ls);
    if ls != [] {
      DeadAreSilentRun(c, v, ls[..|ls| - 1]);
      DeadAreSilentStep(c, After(c, ls[..|ls| - 1]), ls[|ls| - 1], v);
    }
  }

  predicate CrashedBy(log: Log, n: Node, end: nat)
    requires end <= |log|
  {
    exists x :: 0 <= x < end && log[x] == Crashed(n)
  }

  /** A request invoked after its whole preference list crashed can only be answered with the error. */
  lemma TotalCrashIsVisible(c: Config, v: Overlap, ls: seq<Label>, j: nat)
    requires ValidConfig(c) && Run(c, CrashStop, v, ls)
    requires var log := After(c, ls).log;
             && j < |log| && log[j].Responded? && log[j].id < |log| && log[log[j].id].Invoked? && !log[log[j].id].req.Ping?
             && forall n :: n in c.prefs(log[log[j].id].req.key) ==> CrashedBy(log, n, log[j].id)
    ensures After(c, ls).log[j].resp.Error?
  {
    var log := After(c, ls).log;
    DeadAreSilentRun(c, v, ls);
    assert Accounted(log, j);
  }

  // ---------- The failure table ----------

  /** The last ping before `u` was answered "up" by `n`, before the crash at `x`. */
  predicate FromEarlierPing(log: Log, n: Node, x: nat, u: nat)
    requires x < |log| && u <= |log|
  {
    exists y :: 0 <= y < x && y < u && log[y] == Probed(n, true) && forall z :: y < z < u ==> !log[z].Probed?
  }

  /** Every mark-up of a crashed node recorded a ping answered before the crash, and there was at most one. */
  ghost predicate OneLateMarkUp(log: Log, beat: Beat, n: Node, x: nat)
    requires x < |log|
  {
    && (forall u :: x < u < |log| && log[u] == MarkedUp(n) ==> FromEarlierPing(log, n, x, u) && beat != Pinged(n, true))
    && (forall u, w :: x < u < |log| && x < w < |log| && log[u] == MarkedUp(n) && log[w] == MarkedUp(n) ==> u == w)
    && (beat == Pinged(n, true) ==> FromEarlierPing(log, n, x, |log|))
  }

  predicate HeldPing(s: State) {
    s.beat.Pinged? ==> LastPing(s.log, s.beat.node, s.beat.up)
  }

  predicate LastPing(log: Log, n: Node, up: bool) {
    exists y :: 0 <= y < |log| && log[y] == Probed(n, up) && forall z :: y < z < |log| ==> !log[z].Probed?
  }

  ghost predicate TableInv(c: Config, s: State) {
    && (forall x :: 0 <= x < |s.log| && s.log[x].Crashed? ==>
          s.log[x].node in s.crashed && OneLateMarkUp(s.log, s.beat, s.log[x].node, x))
    && HeldPing(s)
  }

  lemma HeldPingStep(c: Config, s: State, l: Label)
    requires Enabled(c, s, l) && HeldPing(s)
    ensures HeldPing(Step(c, s, l))
  {
    var s' := Step(c, s, l);
    if l.Probe? {
      assert s'.log[|s.log|] == Probed(l.n, l.up);
    } else if !l.Record? && s.beat.Pinged? {
      var y :| 0 <= y < |s.log| && s.log[y] == Probed(s.beat.node, s.beat.up)
               && forall z :: y < z < |s.log| ==> !s.log[z].Probed?;
      assert s'.log[y] == s.log[y];
    }
  }

  lemma EarlierPingGrows(log: Log, e: Event, n: Node, x: nat, u: nat)
    requires x < |log| && u <= |log| && FromEarlierPing(log, n, x, u)
    ensures FromEarlierPing(log + [e], n, x, u)
    ensures u == |log| && !e.Probed? ==> FromEarlierPing(log + [e], n, x, u + 1)
  {
    var y :| 0 <= y < x && y < u && log[y] == Probed(n, true) && forall z :: y < z < u ==> !log[z].Probed?;
    assert (log + [e])[y] == log[y];
  }

  lemma TableStep(c: Config, s: State, l: Label, v: Overlap)
    requires TableInv(c, s) && Permitted(c, CrashStop, v, s, l)
    ensures TableInv(c, Step(c, s, l))
  {
    var s', e := Step(c, s, l), EventOf(c, s, l);
    HeldPingStep(c, s, l);
    forall x | 0 <= x < |s'.log| && s'.log[x].Crashed? ensures OneLateMarkUp(s'.log, s'.beat, s'.log[x].node, x) {
      var n := s'.log[x].node;
      if x == |s.log| {
        LateAtCrash(c, s, l, n);
      } else {
        assert s'.log[x] == s.log[x];
        LateLater(s.log, s.beat, e, s'.beat, n, x);
      }
    }
  }

  lemma LateAtCrash(c: Config, s: State, l: Label, n: Node)
    requires HeldPing(s) && Enabled(c, s, l) && l == Crash(n)
    ensures OneLateMarkUp(Step(c, s, l).log, s.beat, n, |s.log|)
  {
    var s' := Step(c, s, l);
    if s.beat == Pinged(n, true) {
      var y :| 0 <= y < |s.log| && s.log[y] == Probed(n, true) && forall z :: y < z < |s.log| ==> !s.log[z].Probed?;
      assert s'.log[y] == Probed(n, true);
    }
  }

  lemma LateLater(log: Log, beat: Beat, e: Event, beat': Beat, n: Node, x: nat)
    requires x < |log| && OneLateMarkUp(log, beat, n, x)
    requires e == MarkedUp(n) ==> beat == Pinged(n, true) && beat' == Resting
    requires beat' == Pinged(n, true) ==> beat == beat' && !e.Probed?
    ensures OneLateMarkUp(log + [e], beat', n, x)
  {
    var log' := log + [e];
    forall u | x < u < |log'| && log'[u] == MarkedUp(n) ensures FromEarlierPing(log', n, x, u) {
      EarlierPingGrows(log, e, n, x, u);
    }
    if beat' == Pinged(n, true) { EarlierPingGrows(log, e, n, x, |log|); }
  }

  lemma {:induction false} TableRun(c: Config, v: Overlap, ls: seq<Label>)
    requires Run(c, CrashStop, v, ls)
    ensures TableInv(c, After(c, ls))
  {
    if ls != [] {
      TableRun(c, v, ls[..|ls| - 1]);
      TableStep(c, After(c, ls[..|ls| - 1]), ls[|ls| - 1], v);
    }
  }

  /** After a crash-stop node crashes it is marked up at most once more, recording a ping it answered before the
      crash, whatever the interleaving with the router threads. */
  lemma CrashedNodeIsMarkedUpOnce(c: Config, v: Overlap, ls: seq<Label>, x: nat, u: nat, w: nat)
    requires Run(c, CrashStop, v, ls)
    requires var log := After(c, ls).log;
             x < u < |log| && x < w < |log| && log[x].Crashed? && log[u] == MarkedUp(log[x].node) && log[w] == log[u]
    ensures u == w && FromEarlierPing(After(c, ls).log, After(c, ls).log[x].node, x, u)
  {
    TableRun(c, v, ls);
    assert OneLateMarkUp(After(c, ls).log, After(c, ls).beat, After(c, ls).log[x].node, x);
  }
}
