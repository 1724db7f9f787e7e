/** Crash-stop runs: nodes crash between any two steps, perhaps after performing a request and before replying, and stay
    down, and exchanges and pings fail only on crashed nodes.  With one writer per key at a time the surviving replicas
    of every quiet key agree; with no other request at all on a key while it is being written the history is
    linearizable. */
module CrashStop {
  import opened KvSpec
  import opened Failover
  import opened History
  import opened FailoverHistory
  import opened Linearizability

  /** Suspicion is never wrong: whoever is marked down, about to be marked down or was passed over has crashed. */
  predicate SuspicionTrue(c: Config, s: State) {
    && (forall n :: n in c.nodes && !IsAlive(s, n) ==> n in s.crashed)
    && (s.beat.Pinged? && !s.beat.up ==> s.beat.node in s.crashed)
    && (forall t :: t in s.ops ==> OpSuspicionTrue(c, s.crashed, s.ops[t]))
  }

  predicate OpSuspicionTrue(c: Config, crashed: set<Node>, o: Op) {
    && (o.phase == Failing && o.i < |Prefs(c, o)| ==> Target(c, o) in crashed)
    && (o.first.None? ==> forall j :: 0 <= j < o.i && j < |Prefs(c, o)| ==> Prefs(c, o)[j] in crashed)
  }

  /** The no-live-replica error is only ever given when the whole preference list has crashed. */
  ghost predicate ErrorsMeanAllCrashed(c: Config, s: State) {
    forall j :: 0 <= j < |s.log| && s.log[j].Responded? && s.log[j].resp.Error? ==>
      s.log[j].id < |s.log| && s.log[s.log[j].id].Invoked? && !s.log[s.log[j].id].req.Ping? &&
      AllCrashed(c, s, s.log[s.log[j].id].req.key)
  }

  predicate AllCrashed(c: Config, s: State, k: Key) {
    forall j :: 0 <= j < |c.prefs(k)| ==> c.prefs(k)[j] in s.crashed
  }

  lemma OpSuspicionStep(c: Config, s: State, l: Label, v: Overlap, t: nat)
    requires ValidConfig(c) && SuspicionTrue(c, s) && Permitted(c, CrashStop, v, s, l) && t in Step(c, s, l).ops
    ensures OpSuspicionTrue(c, Step(c, s, l).crashed, Step(c, s, l).ops[t])
  {
    if t in s.ops {
      assert OpSuspicionTrue(c, s.crashed, s.ops[t]);
    }
  }

  lemma SuspicionTrueStep(c: Config, s: State, l: Label, v: Overlap)
    requires ValidConfig(c) && SuspicionTrue(c, s) && Permitted(c, CrashStop, v, s, l)
    ensures SuspicionTrue(c, Step(c, s, l))
  {
    forall t | t in Step(c, s, l).ops ensures OpSuspicionTrue(c, Step(c, s, l).crashed, Step(c, s, l).ops[t]) {
      OpSuspicionStep(c, s, l, v, t);
    }
  }

  lemma ErrorIsDeserved(c: Config, s: State, l: Label)
    requires ValidConfig(c) && Shape(c, s) && SuspicionTrue(c, s) && Enabled(c, s, l) && l.Return?
    requires AnswerOf(c, s.ops[l.t]).Error?
    ensures AllCrashed(c, s, s.ops[l.t].req.key)
  {
    var o := s.ops[l.t];
    assert o.first.None? && OpSuspicionTrue(c, s.crashed, o) && o.phase == Consulting;
  }

  lemma ErrorsStep(c: Config, s: State, l: Label, v: Overlap)
    requires ValidConfig(c) && Shape(c, s) && SuspicionTrue(c, s) && ErrorsMeanAllCrashed(c, s)
    requires Permitted(c, CrashStop, v, s, l)
    ensures ErrorsMeanAllCrashed(c, Step(c, s, l))
  {
    var s' := Step(c, s, l);
    forall j | 0 <= j < |s'.log| && s'.log[j].Responded? && s'.log[j].resp.Error?
      ensures s'.log[j].id < |s.log| && s'.log[s'.log[j].id].Invoked? && !s'.log[s'.log[j].id].req.Ping?
              && AllCrashed(c, s', s'.log[s'.log[j].id].req.key)
    {
      if j < |s.log| {
        assert s'.log[j] == s.log[j];
        assert AllCrashed(c, s, s.log[s.log[j].id].req.key);
      } else {
        ErrorIsDeserved(c, s, l);
      }
    }
  }

  // ---------- One writer per key: surviving replicas agree with one map ----------

  /** The request has been performed at position `j`, or has passed it. */
  predicate PerformedAt(o: Op, j: nat) {
    j < o.i || (j == o.i && o.phase == Awaiting)
  }

  /** No write of `k` in progress has taken effect elsewhere but not yet at position `j`. */
  predicate Settled(s: State, k: Key, j: nat) {
    forall t :: t in s.ops && IsWrite(s.ops[t].req) && s.ops[t].req.key == k ==> s.ops[t].point.None? || PerformedAt(s.ops[t], j)
  }

  /** Each surviving node of a key's preference list agrees with the one map at that key. */
  ghost predicate Agreement(c: Config, s: State) {
    forall k, j :: 0 <= j < |c.prefs(k)| && c.prefs(k)[j] !in s.crashed && Settled(s, k, j) ==>
      Lookup(StoreOf(s, c.prefs(k)[j]), k) == Lookup(OneMap(s.log), k)
  }

  predicate EffectVisible(log: Log, o: Op) {
    IsWrite(o.req) && o.point.Some? ==> Lookup(OneMap(log), o.req.key) == Effect(o.req)
  }

  /** The replicas a write has yet to reach will answer as the first one did. */
  predicate AnswersAlike(c: Config, s: State, o: Op) {
    IsWrite(o.req) && o.point.Some? ==>
      forall j :: 0 <= j < |Prefs(c, o)| && !PerformedAt(o, j) && Prefs(c, o)[j] !in s.crashed ==>
        Exec(StoreOf(s, Prefs(c, o)[j]), o.req).1 == o.point.value
  }

  /** The replies that arrive are the one given where the request first took effect. */
  predicate FromPoint(o: Op) {
    (o.reply.Some? ==> o.reply == o.point) && (o.first.Some? ==> o.first == o.point)
  }

  predicate WriteTrue(c: Config, s: State, o: Op) {
    EffectVisible(s.log, o) && AnswersAlike(c, s, o) && (IsWrite(o.req) ==> FromPoint(o))
  }

  predicate WritesTrue(c: Config, s: State) {
    forall t :: t in s.ops ==> WriteTrue(c, s, s.ops[t])
  }

  ghost predicate WriterInv(c: Config, s: State) {
    ValidConfig(c) && Shape(c, s) && SuspicionTrue(c, s) && OneWriterPerKey(s) && Agreement(c, s) && WritesTrue(c, s)
  }

  /** A performance is the only step that touches a store or the one map, and only at its own key. */
  lemma OtherKeysStay(c: Config, s: State, l: Label, n: Node, k: Key)
    requires Enabled(c, s, l) && !l.Restart? && (l.Perform? ==> OpShape(c, s.log, s.ops[l.t]))
    requires l.Perform? ==> s.ops[l.t].req.key != k || !IsWrite(s.ops[l.t].req)
    ensures Lookup(StoreOf(Step(c, s, l), n), k) == Lookup(StoreOf(s, n), k)
    ensures Lookup(OneMap(Step(c, s, l).log), k) == Lookup(OneMap(s.log), k)
  {
    OneMapGrows(s.log, EventOf(c, s, l));
    if l.Perform? {
      var o := s.ops[l.t];
      var st := StoreOf(s, Target(c, o));
      ExecIsLocal(st, st, o.req);
      ExecIsLocal(OneMap(s.log), OneMap(s.log), o.req);
    }
  }

  /** A write that is performed leaves its effect in the replica and in the one map. */
  lemma PerformWrites(c: Config, s: State, l: Label)
    requires Enabled(c, s, l) && l.Perform? && OpShape(c, s.log, s.ops[l.t]) && IsWrite(s.ops[l.t].req)
    requires EffectVisible(s.log, s.ops[l.t])
    ensures var o, s' := s.ops[l.t], Step(c, s, l);
            && Lookup(StoreOf(s', Target(c, o)), o.req.key) == Effect(o.req)
            && Lookup(OneMap(s'.log), o.req.key) == Effect(o.req)
            && (forall n :: n != Target(c, o) ==> StoreOf(s', n) == StoreOf(s, n))
  {
    OneMapGrows(s.log, EventOf(c, s, l));
  }

  /** Where a request first takes effect on a settled replica, it is answered as the one map answers. */
  lemma PointIsLegal(c: Config, s: State, l: Label)
    requires Enabled(c, s, l) && l.Perform? && OpShape(c, s.log, s.ops[l.t]) && Agreement(c, s)
    requires Settled(s, s.ops[l.t].req.key, s.ops[l.t].i)
    ensures var o := s.ops[l.t]; Exec(StoreOf(s, Target(c, o)), o.req).1 == Exec(OneMap(s.log), o.req).1
    ensures LegalAt(Step(c, s, l).log, |s.log|)
  {
    var o := s.ops[l.t];
    ExecIsLocal(OneMap(s.log), StoreOf(s, Target(c, o)), o.req);
    assert Step(c, s, l).log[..|s.log|] == s.log;
  }

  lemma OpSettledBefore(c: Config, s: State, l: Label, t: nat, j: nat)
    requires ValidConfig(c) && SuspicionTrue(c, s) && Permitted(c, CrashStop, OneWriter, s, l)
    requires t in s.ops && IsWrite(s.ops[t].req) && j < |Prefs(c, s.ops[t])| && Prefs(c, s.ops[t])[j] !in s.crashed
    requires OpShape(c, s.log, s.ops[t]) && l != Perform(t)
    requires t in Step(c, s, l).ops ==> Step(c, s, l).ops[t].point.None? || PerformedAt(Step(c, s, l).ops[t], j)
    ensures s.ops[t].point.None? || PerformedAt(s.ops[t], j)
  {
    var o := s.ops[t];
    if l == Consult(t) {
      assert IsAlive(s, Target(c, o)) || Target(c, o) in s.crashed;
    } else if l == Report(t) {
      assert OpSuspicionTrue(c, s.crashed, o);
    }
  }

  lemma SettledBefore(c: Config, s: State, l: Label, k: Key, j: nat)
    requires ValidConfig(c) && Shape(c, s) && SuspicionTrue(c, s) && Permitted(c, CrashStop, OneWriter, s, l)
    requires j < |c.prefs(k)| && c.prefs(k)[j] !in s.crashed && Settled(Step(c, s, l), k, j)
    requires l.Perform? ==> s.ops[l.t].req.key != k || !IsWrite(s.ops[l.t].req)
    ensures Settled(s, k, j)
  {
    OpsKeepIdentity(c, s, l);
    forall t | t in s.ops && IsWrite(s.ops[t].req) && s.ops[t].req.key == k
      ensures s.ops[t].point.None? || PerformedAt(s.ops[t], j)
    {
      OpSettledBefore(c, s, l, t, j);
    }
  }

  lemma PerformAgrees(c: Config, s: State, l: Label, j: nat)
    requires WriterInv(c, s) && Enabled(c, s, l) && l.Perform? && IsWrite(s.ops[l.t].req)
    requires var k := s.ops[l.t].req.key;
             j < |c.prefs(k)| && c.prefs(k)[j] !in s.crashed && Settled(Step(c, s, l), k, j)
    ensures var k := s.ops[l.t].req.key;
            Lookup(StoreOf(Step(c, s, l), c.prefs(k)[j]), k) == Lookup(OneMap(Step(c, s, l).log), k)
  {
    var s', o := Step(c, s, l), s.ops[l.t];
    PerformWrites(c, s, l);
    assert l.t in s'.ops && PerformedAt(s'.ops[l.t], j);
    assert OpSuspicionTrue(c, s.crashed, o);
    if j != o.i {
      assert Settled(s, o.req.key, j);
    }
  }

  lemma AgreementStep(c: Config, s: State, l: Label)
    requires WriterInv(c, s) && Permitted(c, CrashStop, OneWriter, s, l)
    ensures Agreement(c, Step(c, s, l))
  {
    var s' := Step(c, s, l);
    forall k, j | 0 <= j < |c.prefs(k)| && c.prefs(k)[j] !in s'.crashed && Settled(s', k, j)
      ensures Lookup(StoreOf(s', c.prefs(k)[j]), k) == Lookup(OneMap(s'.log), k)
    {
      if l.Perform? && k == s.ops[l.t].req.key && IsWrite(s.ops[l.t].req) {
        PerformAgrees(c, s, l, j);
      } else {
        SettledBefore(c, s, l, k, j);
        OtherKeysStay(c, s, l, c.prefs(k)[j], k);
      }
    }
  }

  lemma EffectStays(c: Config, s: State, l: Label, t: nat)
    requires Enabled(c, s, l) && !l.Restart? && OneWriterPerKey(s) && t in s.ops && t in Step(c, s, l).ops
    requires (l.Perform? ==> OpShape(c, s.log, s.ops[l.t])) && EffectVisible(s.log, s.ops[t])
    ensures EffectVisible(Step(c, s, l).log, Step(c, s, l).ops[t])
  {
    OpsKeepIdentity(c, s, l);
    if IsWrite(s.ops[t].req) {
      if l == Perform(t) {
        PerformWrites(c, s, l);
      } else {
        OtherKeysStay(c, s, l, "", s.ops[t].req.key);
      }
    }
  }

  /** Before a write takes effect anywhere, all its surviving replicas would answer it alike. */
  lemma SettledAlike(c: Config, s: State, o: Op, i: nat, j: nat)
    requires Agreement(c, s) && !o.req.Ping? && i < |Prefs(c, o)| && j < |Prefs(c, o)|
    requires Prefs(c, o)[i] !in s.crashed && Prefs(c, o)[j] !in s.crashed
    requires Settled(s, o.req.key, i) && Settled(s, o.req.key, j)
    ensures Exec(StoreOf(s, Prefs(c, o)[j]), o.req).1 == Exec(StoreOf(s, Prefs(c, o)[i]), o.req).1
  {
    ExecIsLocal(StoreOf(s, Prefs(c, o)[j]), StoreOf(s, Prefs(c, o)[i]), o.req);
  }

  lemma UntouchedIsSettled(s: State, t: nat, j: nat)
    requires OneWriterPerKey(s) && t in s.ops && IsWrite(s.ops[t].req) && s.ops[t].point.None?
    ensures Settled(s, s.ops[t].req.key, j)
  {
  }

  /** The performing replica answers like the first. */
  lemma PerformAlike(c: Config, s: State, l: Label)
    requires ValidConfig(c) && OneWriterPerKey(s) && Agreement(c, s) && Enabled(c, s, l) && l.Perform?
    requires IsWrite(s.ops[l.t].req) && WriteTrue(c, s, s.ops[l.t]) && OpShape(c, s.log, s.ops[l.t])
    ensures AnswersAlike(c, Step(c, s, l), Step(c, s, l).ops[l.t]) && FromPoint(Step(c, s, l).ops[l.t])
  {
    var s', o := Step(c, s, l), s.ops[l.t];
    var point := s'.ops[l.t].point.value;
    forall j | o.i < j < |Prefs(c, o)| && Prefs(c, o)[j] !in s.crashed ensures Exec(StoreOf(s', Prefs(c, o)[j]), o.req).1 == point {
      assert StoreOf(s', Prefs(c, o)[j]) == StoreOf(s, Prefs(c, o)[j]);
      if o.point.None? {
        UntouchedIsSettled(s, l.t, j);
        UntouchedIsSettled(s, l.t, o.i);
        SettledAlike(c, s, o, o.i, j);
      }
    }
  }

  lemma AlikeAt(c: Config, s: State, l: Label, t: nat, n: Node)
    requires Enabled(c, s, l) && !l.Restart? && OneWriterPerKey(s) && t in s.ops && IsWrite(s.ops[t].req) && l != Perform(t)
    requires l.Perform? ==> OpShape(c, s.log, s.ops[l.t])
    ensures Exec(StoreOf(Step(c, s, l), n), s.ops[t].req).1 == Exec(StoreOf(s, n), s.ops[t].req).1
  {
    OtherKeysStay(c, s, l, n, s.ops[t].req.key);
    ExecIsLocal(StoreOf(Step(c, s, l), n), StoreOf(s, n), s.ops[t].req);
  }

  /** Otherwise a step leaves fewer replicas to reach, or one that crashed. */
  lemma FewerAhead(c: Config, s: State, l: Label, t: nat)
    requires Permitted(c, CrashStop, OneWriter, s, l) && t in s.ops && t in Step(c, s, l).ops && l != Perform(t)
    requires IsWrite(s.ops[t].req)
    ensures var s', o, o' := Step(c, s, l), s.ops[t], Step(c, s, l).ops[t];
            && o'.point == o.point && Prefs(c, o') == Prefs(c, o) && (FromPoint(o) ==> FromPoint(o'))
            && forall j :: 0 <= j < |Prefs(c, o)| && !PerformedAt(o', j) && Prefs(c, o)[j] !in s'.crashed ==>
                 !PerformedAt(o, j) && Prefs(c, o)[j] !in s.crashed
  {
  }

  lemma AlikeStays(c: Config, s: State, l: Label, t: nat)
    requires Permitted(c, CrashStop, OneWriter, s, l) && OneWriterPerKey(s) && t in s.ops && t in Step(c, s, l).ops
    requires l != Perform(t) && IsWrite(s.ops[t].req) && (l.Perform? ==> OpShape(c, s.log, s.ops[l.t]))
    requires AnswersAlike(c, s, s.ops[t]) && FromPoint(s.ops[t])
    ensures AnswersAlike(c, Step(c, s, l), Step(c, s, l).ops[t]) && FromPoint(Step(c, s, l).ops[t])
  {
    OpsKeepIdentity(c, s, l);
    FewerAhead(c, s, l, t);
    var s', o := Step(c, s, l), s.ops[t];
    forall j | 0 <= j < |Prefs(c, o)| && !PerformedAt(s'.ops[t], j) && Prefs(c, o)[j] !in s'.crashed && o.point.Some?
      ensures Exec(StoreOf(s', Prefs(c, o)[j]), o.req).1 == o.point.value
    {
      AlikeAt(c, s, l, t, Prefs(c, o)[j]);
    }
  }

  lemma WriteTrueStep(c: Config, s: State, l: Label, t: nat)
    requires WriterInv(c, s) && Permitted(c, CrashStop, OneWriter, s, l) && t in Step(c, s, l).ops
    ensures WriteTrue(c, Step(c, s, l), Step(c, s, l).ops[t])
  {
    OpsKeepIdentity(c, s, l);
    if t in s.ops {
      assert WriteTrue(c, s, s.ops[t]);
      EffectStays(c, s, l, t);
      if IsWrite(s.ops[t].req) {
        if l == Perform(t) { PerformAlike(c, s, l); } else { AlikeStays(c, s, l, t); }
      }
    }
  }

  lemma WritesTrueStep(c: Config, s: State, l: Label)
    requires WriterInv(c, s) && Permitted(c, CrashStop, OneWriter, s, l)
    ensures WritesTrue(c, Step(c, s, l))
  {
    forall t | t in Step(c, s, l).ops ensures WriteTrue(c, Step(c, s, l), Step(c, s, l).ops[t]) {
      WriteTrueStep(c, s, l, t);
    }
  }

  lemma WriterStep(c: Config, s: State, l: Label)
    requires WriterInv(c, s) && Permitted(c, CrashStop, OneWriter, s, l)
    ensures WriterInv(c, Step(c, s, l))
  {
    ShapeStep(c, s, l);
    SuspicionTrueStep(c, s, l, OneWriter);
    OneWriterStep(c, s, l);
    AgreementStep(c, s, l);
    WritesTrueStep(c, s, l);
  }

  lemma {:induction false} WriterRun(c: Config, ls: seq<Label>)
    requires ValidConfig(c) && Run(c, CrashStop, OneWriter, ls)
    ensures WriterInv(c, After(c, ls))
  {
    if ls != [] {
      WriterRun(c, ls[..|ls| - 1]);
      WriterStep(c, After(c, ls[..|ls| - 1]), ls[|ls| - 1]);
    }
  }

  /** One writer per key suffices for replica agreement: in every crash-stop run, however reads overlap, all surviving
      replicas of a key that is not being written hold what the performed writes leave under it. */
  lemma QuietReplicasAgree(c: Config, ls: seq<Label>, k: Key, j: nat)
    requires ValidConfig(c) && Run(c, CrashStop, OneWriter, ls)
    requires j < |c.prefs(k)| && c.prefs(k)[j] !in After(c, ls).crashed && !BeingWritten(After(c, ls), k)
    ensures Lookup(StoreOf(After(c, ls), c.prefs(k)[j]), k) == Lookup(OneMap(After(c, ls).log), k)
  {
    WriterRun(c, ls);
    assert Settled(After(c, ls), k, j);
  }

  // ---------- No other request on a key being written: one map ----------

  predicate WriterIsAlone(s: State) {
    forall t, u :: t in s.ops && u in s.ops && t != u && IsWrite(s.ops[t].req) && !s.ops[u].req.Ping? ==>
      s.ops[t].req.key != s.ops[u].req.key
  }

  /** A read in progress that was performed got what the one map still answers. */
  predicate ReadCurrent(log: Log, o: Op) {
    o.req.Get? ==> FromPoint(o) && (o.point.Some? ==> Exec(OneMap(log), o.req).1 == o.point.value)
  }

  ghost predicate CrashStopInv(c: Config, s: State) {
    && WriterInv(c, s) && WriterIsAlone(s) && (forall t :: t in s.ops ==> ReadCurrent(s.log, s.ops[t]))
    && Legal(s.log) && PointsAnswer(s.log)
  }

  lemma WriterIsAloneStep(c: Config, s: State, l: Label)
    requires WriterIsAlone(s) && (forall t :: t in s.ops ==> !s.ops[t].req.Ping?) && Permitted(c, CrashStop, WriterAlone, s, l)
    ensures WriterIsAlone(Step(c, s, l))
  {
    OpsKeepIdentity(c, s, l);
  }

  /** What a step of a read's own thread does to what it was told. */
  lemma ReadKeepsPoint(c: Config, s: State, l: Label)
    requires Enabled(c, s, l) && Actor(l) >= 0 && !l.Begin? && !l.Return? && s.ops[Actor(l)].req.Get? && FromPoint(s.ops[Actor(l)])
    requires l.Perform? ==> OpShape(c, s.log, s.ops[l.t]) && (s.ops[l.t].point.Some? ==>
               s.ops[l.t].point.value == Exec(s.stores[Target(c, s.ops[l.t])], s.ops[l.t].req).1)
    ensures var o, o' := s.ops[Actor(l)], OpAfter(c, s, l);
            && o'.req == o.req && FromPoint(o')
            && (o'.point == o.point || (l.Perform? && o'.point == Some(Exec(s.stores[Target(c, o)], o.req).1)))
  {
  }

  /** While a read is in progress nobody writes its key, so the one map goes on giving the same answer. */
  lemma ReadIsUndisturbed(c: Config, s: State, l: Label, t: nat)
    requires Enabled(c, s, l) && !l.Restart? && WriterIsAlone(s) && t in s.ops && s.ops[t].req.Get?
    requires l.Perform? ==> OpShape(c, s.log, s.ops[l.t])
    ensures Exec(OneMap(s.log + [EventOf(c, s, l)]), s.ops[t].req).1 == Exec(OneMap(s.log), s.ops[t].req).1
  {
    OtherKeysStay(c, s, l, "", s.ops[t].req.key);
    ExecIsLocal(OneMap(s.log), OneMap(Step(c, s, l).log), s.ops[t].req);
  }

  lemma ReadStays(c: Config, s: State, l: Label, t: nat)
    requires Enabled(c, s, l) && !l.Restart? && WriterIsAlone(s) && t in s.ops && t in OpsAfter(c, s, l) && s.ops[t].req.Get?
    requires (l.Perform? ==> OpShape(c, s.log, s.ops[l.t])) && ReadCurrent(s.log, s.ops[t])
    requires l == Perform(t) ==> Exec(s.stores[Target(c, s.ops[t])], s.ops[t].req).1 == Exec(OneMap(s.log), s.ops[t].req).1
    ensures ReadCurrent(s.log + [EventOf(c, s, l)], OpsAfter(c, s, l)[t])
  {
    ReadIsUndisturbed(c, s, l, t);
    if t == Actor(l) { ReadKeepsPoint(c, s, l); }
  }

  lemma ReadIsTrue(c: Config, s: State, t: nat)
    requires Enabled(c, s, Perform(t)) && s.ops[t].req.Get? && OpShape(c, s.log, s.ops[t]) && Agreement(c, s) && WriterIsAlone(s)
    ensures Exec(s.stores[Target(c, s.ops[t])], s.ops[t].req).1 == Exec(OneMap(s.log), s.ops[t].req).1
  {
    assert Settled(s, s.ops[t].req.key, s.ops[t].i);
    PointIsLegal(c, s, Perform(t));
  }

  lemma ReadStep(c: Config, s: State, l: Label, t: nat)
    requires Enabled(c, s, l) && !l.Restart? && t in OpsAfter(c, s, l) && Agreement(c, s) && WriterIsAlone(s)
    requires (l.Perform? ==> OpShape(c, s.log, s.ops[l.t])) && (t in s.ops ==> ReadCurrent(s.log, s.ops[t]))
    ensures ReadCurrent(s.log + [EventOf(c, s, l)], OpsAfter(c, s, l)[t])
  {
    OpsKeepIdentity(c, s, l);
    if t in s.ops && s.ops[t].req.Get? {
      if l == Perform(t) { ReadIsTrue(c, s, t); }
      ReadStays(c, s, l, t);
    }
  }

  lemma LegalStep(c: Config, s: State, l: Label)
    requires CrashStopInv(c, s) && Enabled(c, s, l)
    ensures Legal(Step(c, s, l).log)
  {
    if l.Perform? && s.ops[l.t].point.None? {
      assert Settled(s, s.ops[l.t].req.key, s.ops[l.t].i);
      PointIsLegal(c, s, l);
    }
    LegalGrows(s.log, EventOf(c, s, l));
  }

  lemma AnswerFromPoint(c: Config, s: State, l: Label)
    requires PointsAnswer(s.log) && Enabled(c, s, l)
    requires l.Return? ==> OpShape(c, s.log, s.ops[l.t]) && (s.ops[l.t].first.Some? ==> s.ops[l.t].first == s.ops[l.t].point)
    ensures PointsAnswer(Step(c, s, l).log)
  {
    PointsAnswerGrows(s.log, EventOf(c, s, l));
  }

  lemma CrashStopStep(c: Config, s: State, l: Label)
    requires CrashStopInv(c, s) && Permitted(c, CrashStop, WriterAlone, s, l)
    ensures CrashStopInv(c, Step(c, s, l))
  {
    var s' := Step(c, s, l);
    WriterStep(c, s, l);
    WriterIsAloneStep(c, s, l);
    forall t | t in s'.ops ensures ReadCurrent(s'.log, s'.ops[t]) { ReadStep(c, s, l, t); }
    LegalStep(c, s, l);
    AnswerFromPoint(c, s, l);
  }

  lemma {:induction false} CrashStopRun(c: Config, ls: seq<Label>)
    requires ValidConfig(c) && Run(c, CrashStop, WriterAlone, ls)
    ensures CrashStopInv(c, After(c, ls))
  {
    if ls != [] {
      CrashStopRun(c, ls[..|ls| - 1]);
      CrashStopStep(c, After(c, ls[..|ls| - 1]), ls[|ls| - 1]);
    }
  }

  /** The cluster behaves like one map.  For every crash-stop run the history is linearizable; at every moment each
      surviving replica that no write in progress has yet to reach agrees with the map the history leaves; so whenever a
      key is not being written all its surviving replicas do. */
  lemma CrashStopRefinement(c: Config, ls: seq<Label>)
    requires ValidConfig(c) && Run(c, CrashStop, WriterAlone, ls)
    ensures var s := After(c, ls);
            && Linearization(s.log, Order(s.log)) && MapAfter(Order(s.log)) == OneMap(s.log) && Agreement(c, s)
            && (forall k, j :: 0 <= j < |c.prefs(k)| && c.prefs(k)[j] !in s.crashed && !BeingWritten(s, k) ==>
                  Lookup(StoreOf(s, c.prefs(k)[j]), k) == Lookup(MapAfter(Order(s.log)), k))
  {
    var s := After(c, ls);
    CrashStopRun(c, ls);
    LegalIsLinearizable(s.log);
    OrderIsOneMapHistory(s.log);
    forall k, j | 0 <= j < |c.prefs(k)| && c.prefs(k)[j] !in s.crashed && !BeingWritten(s, k)
      ensures Lookup(StoreOf(s, c.prefs(k)[j]), k) == Lookup(OneMap(s.log), k)
    {
      assert Settled(s, k, j);
    }
  }
}
