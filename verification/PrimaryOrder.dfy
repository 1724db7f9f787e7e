/** When the primary alone decides.  If every request is performed by the primary first, every interleaving of any
    number of router threads is linearizable, even when the other replicas see concurrent writes in another order.  That
    is the case when nothing fails, and when keys are not replicated at all; then even writes whose reply is lost in a
    crash, but which others may have read, have their place. */
module PrimaryOrder {
  import opened KvSpec
  import opened Failover
  import opened History
  import opened FailoverHistory
  import opened Linearizability
  import opened CrashStop

  function Primary(c: Config, k: Key): Node
    requires |c.prefs(k)| > 0
  {
    c.prefs(k)[0]
  }

  /** The primary of every key holds what the one map holds. */
  ghost predicate PrimariesCurrent(c: Config, s: State)
    requires ValidConfig(c)
  {
    forall k :: Lookup(StoreOf(s, Primary(c, k)), k) == Lookup(OneMap(s.log), k)
  }

  /** Every request was first performed by the primary of its key. */
  ghost predicate PrimariesFirst(c: Config, log: Log)
    requires ValidConfig(c)
  {
    forall p :: 0 <= p < |log| && Point(log, p) && !log[log[p].id].req.Ping? ==>
      log[p].node == Primary(c, log[log[p].id].req.key)
  }

  /** The first reply to arrive is the one given where the request first took effect. */
  predicate FirstFromPoint(o: Op) {
    (o.first.Some? ==> o.first == o.point) && (o.first.None? && o.reply.Some? ==> o.reply == o.point)
  }

  ghost predicate PrimaryInv(c: Config, s: State) {
    && ValidConfig(c) && Shape(c, s) && PrimariesCurrent(c, s) && PrimariesFirst(c, s.log) && Legal(s.log)
    && (forall t :: t in s.ops ==> FirstFromPoint(s.ops[t])) && PointsAnswer(s.log)
  }

  /** A step that neither loses data nor has a request performed by anyone but the primary before a reply arrived. */
  predicate PrimaryLed(c: Config, s: State, l: Label)
    requires Enabled(c, s, l)
  {
    !l.Restart? && (l.Perform? ==> if s.ops[l.t].point.None? then s.ops[l.t].i == 0 else s.ops[l.t].first.Some?)
  }

  lemma PerformStep(c: Config, s: State, l: Label)
    requires ValidConfig(c) && PrimariesCurrent(c, s)
    requires Enabled(c, s, l) && l.Perform? && PrimaryLed(c, s, l) && OpShape(c, s.log, s.ops[l.t])
    ensures PrimariesCurrent(c, Step(c, s, l)) && LegalAt(Step(c, s, l).log, |s.log|)
  {
    var s', o := Step(c, s, l), s.ops[l.t];
    var n := Target(c, o);
    OneMapGrows(s.log, EventOf(c, s, l));
    ExecIsLocal(StoreOf(s, n), StoreOf(s, n), o.req);
    assert s'.log[..|s.log|] == s.log;
    if o.point.None? {
      assert n == Primary(c, o.req.key);
      ExecIsLocal(StoreOf(s, n), OneMap(s.log), o.req);
      ExecIsLocal(OneMap(s.log), StoreOf(s, n), o.req);
    }
  }

  lemma PrimariesFirstStep(c: Config, s: State, l: Label)
    requires PrimaryInv(c, s) && Enabled(c, s, l) && PrimaryLed(c, s, l)
    ensures PrimariesFirst(c, Step(c, s, l).log)
  {
    var log, log' := s.log, Step(c, s, l).log;
    forall p | 0 <= p < |log'| && Point(log', p) && !log'[log'[p].id].req.Ping?
      ensures log'[p].node == Primary(c, log'[log'[p].id].req.key)
    {
      assert log'[log'[p].id] == log[log'[p].id];
      assert p < |log| ==> Point(log, p);
    }
  }

  lemma RepliesFromPoint(c: Config, s: State, l: Label, t: nat)
    requires Enabled(c, s, l) && PrimaryLed(c, s, l) && t in Step(c, s, l).ops && (t in s.ops ==> FirstFromPoint(s.ops[t]))
    requires l.Perform? || l.Reply? ==> OpShape(c, s.log, s.ops[l.t])
    ensures FirstFromPoint(Step(c, s, l).ops[t])
  {
  }

  lemma PrimaryStep(c: Config, s: State, l: Label)
    requires PrimaryInv(c, s) && Enabled(c, s, l) && PrimaryLed(c, s, l)
    ensures PrimaryInv(c, Step(c, s, l))
  {
    ShapeStep(c, s, l);
    PrimariesFirstStep(c, s, l);
    if l.Perform? {
      PerformStep(c, s, l);
    } else {
      OneMapGrows(s.log, EventOf(c, s, l));
    }
    LegalGrows(s.log, EventOf(c, s, l));
    forall t | t in Step(c, s, l).ops ensures FirstFromPoint(Step(c, s, l).ops[t]) { RepliesFromPoint(c, s, l, t); }
    AnswerFromPoint(c, s, l);
  }

  // ---------- Nothing fails ----------

  predicate NobodySuspected(c: Config, s: State) {
    && s.crashed == {}
    && (forall n :: n in c.nodes ==> IsAlive(s, n))
    && (s.beat.Pinged? ==> s.beat.up)
    && (forall t :: t in s.ops ==> OpUndisturbed(s.ops[t]))
  }

  predicate OpUndisturbed(o: Op) {
    && o.phase != Failing && (o.i > 0 ==> o.first.Some?)
    && (o.point.Some? && (o.phase == Consulting || o.phase == Sending) ==> o.first.Some?)
  }

  lemma NobodySuspectedStep(c: Config, s: State, l: Label)
    requires ValidConfig(c) && NobodySuspected(c, s) && Permitted(c, NoFaults, Unrestricted, s, l)
    ensures NobodySuspected(c, Step(c, s, l))
  {
    forall t | t in Step(c, s, l).ops ensures OpUndisturbed(Step(c, s, l).ops[t]) {
      assert t in s.ops ==> OpUndisturbed(s.ops[t]);
    }
  }

  lemma {:induction false} FaultFreeRun(c: Config, ls: seq<Label>)
    requires ValidConfig(c) && Run(c, NoFaults, Unrestricted, ls)
    ensures PrimaryInv(c, After(c, ls)) && NobodySuspected(c, After(c, ls))
  {
    if ls != [] {
      var s, l := After(c, ls[..|ls| - 1]), ls[|ls| - 1];
      FaultFreeRun(c, ls[..|ls| - 1]);
      PrimaryStep(c, s, l);
      NobodySuspectedStep(c, s, l);
    }
  }

  /** Linearizability without failures, for every interleaving: the order in which the primaries perform the requests is
      a legal single-map history that respects real time, and every answer is the primary's. */
  lemma FaultFreeLinearizable(c: Config, ls: seq<Label>)
    requires ValidConfig(c) && Run(c, NoFaults, Unrestricted, ls)
    ensures var log := After(c, ls).log; Linearization(log, Order(log)) && PrimariesFirst(c, log)
  {
    FaultFreeRun(c, ls);
    LegalIsLinearizable(After(c, ls).log);
  }

  // ---------- No replication ----------

  lemma {:induction false} SingleReplicaRun(c: Config, ls: seq<Label>)
    requires ValidConfig(c) && (forall k :: |c.prefs(k)| == 1) && Run(c, CrashStop, Unrestricted, ls)
    ensures PrimaryInv(c, After(c, ls))
  {
    if ls != [] {
      var s, l := After(c, ls[..|ls| - 1]), ls[|ls| - 1];
      SingleReplicaRun(c, ls[..|ls| - 1]);
      PrimaryStep(c, s, l);
    }
  }

  /** With one replica per key, crash-stop runs are linearizable however the requests overlap: also those in which a
      node performs a write, shows it to a reader and crashes before replying, so that the write is answered with the
      error. */
  lemma SingleReplicaLinearizable(c: Config, ls: seq<Label>)
    requires ValidConfig(c) && (forall k :: |c.prefs(k)| == 1) && Run(c, CrashStop, Unrestricted, ls)
    ensures Linearization(After(c, ls).log, Order(After(c, ls).log))
  {
    SingleReplicaRun(c, ls);
    LegalIsLinearizable(After(c, ls).log);
  }
}
