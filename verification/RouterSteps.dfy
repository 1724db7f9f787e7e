/** The router's loops and a heartbeat sweep are runs of the step machine, so what holds in every run holds of them. */
module RouterSteps {
  import opened KvSpec
  import opened History
  import opened Failover
  import opened Routing

  // ---------- Continuing a run ----------

  predicate Follows(c: Config, f: Faults, v: Overlap, s: State, ls: seq<Label>)
    decreases ls
  {
    ls == [] || (Permitted(c, f, v, s, ls[0]) && Follows(c, f, v, Step(c, s, ls[0]), ls[1..]))
  }

  function EndOf(c: Config, f: Faults, v: Overlap, s: State, ls: seq<Label>): State
    requires Follows(c, f, v, s, ls)
    decreases ls
  {
    if ls == [] then s else EndOf(c, f, v, Step(c, s, ls[0]), ls[1..])
  }

  /** `ls` leads from `s` to `s'`. */
  predicate Leads(c: Config, f: Faults, v: Overlap, s: State, ls: seq<Label>, s': State) {
    Follows(c, f, v, s, ls) && EndOf(c, f, v, s, ls) == s'
  }

  lemma Nowhere(c: Config, f: Faults, v: Overlap, s: State)
    ensures Leads(c, f, v, s, [], s)
  {
  }

  lemma OneStep(c: Config, f: Faults, v: Overlap, s: State, l: Label)
    requires Permitted(c, f, v, s, l)
    ensures Leads(c, f, v, s, [l], Step(c, s, l))
  {
    assert [l][1..] == [];
    Nowhere(c, f, v, Step(c, s, l));
  }

  lemma {:induction false} Join(c: Config, f: Faults, v: Overlap, s: State, a: seq<Label>, s1: State, b: seq<Label>, s2: State)
    requires Leads(c, f, v, s, a, s1) && Leads(c, f, v, s1, b, s2)
    ensures Leads(c, f, v, s, a + b, s2)
    decreases a
  {
    if a == [] {
      assert a + b == b;
    } else {
      Join(c, f, v, Step(c, s, a[0]), a[1..], s1, b, s2);
      assert (a + b)[1..] == a[1..] + b;
    }
  }

  lemma Extend(c: Config, f: Faults, v: Overlap, ls: seq<Label>, l: Label)
    requires Run(c, f, v, ls) && Permitted(c, f, v, After(c, ls), l)
    ensures Run(c, f, v, ls + [l]) && After(c, ls + [l]) == Step(c, After(c, ls), l)
  {
    assert (ls + [l])[..|ls|] == ls;
  }

  /** What leads from the state after a run continues that run. */
  lemma {:induction false} Continue(c: Config, f: Faults, v: Overlap, ls: seq<Label>, more: seq<Label>, s': State)
    requires Run(c, f, v, ls) && Leads(c, f, v, After(c, ls), more, s')
    ensures Run(c, f, v, ls + more) && After(c, ls + more) == s'
    decreases more
  {
    if more == [] {
      assert ls + more == ls;
    } else {
      Extend(c, f, v, ls, more[0]);
      Continue(c, f, v, ls + [more[0]], more[1..], s');
      Regroup(ls, more);
    }
  }

  lemma Regroup(ls: seq<Label>, more: seq<Label>)
    requires more != []
    ensures ls + [more[0]] + more[1..] == ls + more
  {
  }

  // ---------- One thread ----------

  /** A thread between two replicas. */
  ghost predicate AtTop(c: Config, s: State, t: nat) {
    && s.stores.Keys == c.nodes && t in s.ops && s.ops[t].phase == Consulting && s.ops[t].reply.None? && !s.ops[t].req.Ping?
    && s.ops[t].i <= |c.prefs(s.ops[t].req.key)| && (s.ops[t].req.Get? ==> s.ops[t].first.None?)
  }

  /** What request `id` adds to the log besides its invocation: nothing that restarts, marks up or serves another. */
  predicate Own(log: Log, log': Log, id: nat) {
    && log <= log'
    && forall p :: |log| <= p < |log'| ==>
         !log'[p].Invoked? && !log'[p].Restarted? && !log'[p].MarkedUp? && (log'[p].Served? ==> log'[p].id == id)
  }

  lemma OwnGrows(log: Log, log': Log, e: Event, id: nat)
    requires Own(log, log', id)
    requires !e.Invoked? && !e.Restarted? && !e.MarkedUp? && (e.Served? ==> e.id == id)
    ensures Own(log, log' + [e], id)
  {
  }

  lemma OwnJoins(a: Log, b: Log, d: Log, id: nat)
    requires Own(a, b, id) && Own(b, d, id)
    ensures Own(a, d, id)
  {
    assert forall p :: |a| <= p < |b| ==> d[p] == b[p];
  }

  /** Nodes that were believed up and no longer are. */
  function Downed(a: map<Node, bool>, a': map<Node, bool>): set<Node> {
    set n | n in a && Up(a, n) && !Up(a', n)
  }

  ghost predicate NoneUp(a: map<Node, bool>, a': map<Node, bool>) {
    forall n :: Up(a', n) ==> Up(a, n)
  }

  /** From `s` to `s'` only thread `t` moved, and under crash-stop faults the nodes it found failing crashed. */
  ghost predicate Moved(f: Faults, s: State, s': State, t: nat) {
    && t in s.ops && (forall u :: u != t ==> (u in s'.ops <==> u in s.ops) && (u in s.ops ==> s'.ops[u] == s.ops[u]))
    && s'.beat == s.beat && s'.stores.Keys == s.stores.Keys && Own(s.log, s'.log, s.ops[t].id) && NoneUp(s.alive, s'.alive)
    && s'.crashed == if f == CrashStop then s.crashed + Downed(s.alive, s'.alive) else s.crashed
  }

  lemma MovedTwice(f: Faults, s: State, s1: State, s2: State, t: nat)
    requires Moved(f, s, s1, t) && t in s1.ops && s1.ops[t].id == s.ops[t].id && Moved(f, s1, s2, t)
    ensures Moved(f, s, s2, t)
  {
    OwnJoins(s.log, s1.log, s2.log, s.ops[t].id);
    assert Downed(s.alive, s2.alive) == Downed(s.alive, s1.alive) + Downed(s1.alive, s2.alive);
  }

  /** How an exchange with `n` may end: only a node that is up performs a request or replies. */
  predicate FateAllowed(f: Faults, crashed: set<Node>, n: Node, fate: Fate) {
    (fate.Delivered? || fate.applied ==> n !in crashed) && (f == NoFaults ==> fate.Delivered?)
  }

  ghost predicate FatesAllowed(f: Faults, s: State, prefs: seq<Node>, fates: nat -> Fate) {
    forall j :: 0 <= j < |prefs| && Up(s.alive, prefs[j]) ==> FateAllowed(f, s.crashed, prefs[j], fates(j))
  }

  /** One step of thread `t` that leaves the failure table alone. */
  lemma StepMoves(c: Config, f: Faults, v: Overlap, s: State, l: Label, t: nat)
    requires Permitted(c, f, v, s, l) && (l == Consult(t) || l == Perform(t) || l == Reply(t) || l == Break(t))
    requires l.Perform? ==> s.stores.Keys == c.nodes
    ensures Leads(c, f, v, s, [l], Step(c, s, l)) && Moved(f, s, Step(c, s, l), t)
  {
    OneStep(c, f, v, s, l);
    assert Downed(s.alive, s.alive) == {};
  }

  /** Thread `t` is exchanging with the replica at its position. */
  predicate Exchanging(c: Config, s: State, t: nat) {
    (AtReplica(c, s, t, Sending) || AtReplica(c, s, t, Awaiting)) && Up(s.alive, Target(c, s.ops[t]))
  }

  lemma Crashes(c: Config, f: Faults, v: Overlap, s: State, n: Node) returns (s': State, ls: seq<Label>)
    requires f != NoFaults && n in c.nodes
    ensures Leads(c, f, v, s, ls, s')
    ensures s' == s.(crashed := if f == CrashStop then s.crashed + {n} else s.crashed, log := s'.log)
    ensures s'.log == s.log || s'.log == s.log + [Crashed(n)]
  {
    if f == CrashStop && n !in s.crashed {
      OneStep(c, f, v, s, Crash(n));
      ls, s' := [Crash(n)], Step(c, s, Crash(n));
    } else {
      Nowhere(c, f, v, s);
      ls, s' := [], s;
    }
  }

  /** The exchange breaks, and under crash-stop faults that is because the replica crashed, now if not before. */
  lemma Breaks(c: Config, f: Faults, v: Overlap, s: State, t: nat) returns (ls: seq<Label>, s': State)
    requires f != NoFaults && Exchanging(c, s, t) && Target(c, s.ops[t]) in c.nodes
    ensures Leads(c, f, v, s, ls, s') && Own(s.log, s'.log, s.ops[t].id)
    ensures s' == s.(crashed := if f == CrashStop then s.crashed + {Target(c, s.ops[t])} else s.crashed,
                     ops := s.ops[t := s.ops[t].(phase := Failing, reply := None)], log := s'.log)
  {
    var s0, ls0 := Crashes(c, f, v, s, Target(c, s.ops[t]));
    OneStep(c, f, v, s0, Break(t));
    s' := Step(c, s0, Break(t));
    Join(c, f, v, s, ls0, s0, [Break(t)], s');
    ls := ls0 + [Break(t)];
    OwnGrows(s.log, s0.log, EventOf(c, s0, Break(t)), s.ops[t].id);
  }

  lemma FailMoves(f: Faults, s: State, s': State, t: nat, n: Node)
    requires t in s.ops && Up(s.alive, n) && s'.alive == s.alive[n := false] && s'.beat == s.beat && s'.stores == s.stores
    requires s'.crashed == (if f == CrashStop then s.crashed + {n} else s.crashed)
    requires t in s'.ops && s'.ops == s.ops[t := s'.ops[t]] && Own(s.log, s'.log, s.ops[t].id)
    ensures Moved(f, s, s', t)
  {
    assert Downed(s.alive, s'.alive) == {n};
  }

  /** The exchange fails and the replica is marked down. */
  lemma Fails(c: Config, f: Faults, v: Overlap, s: State, t: nat) returns (ls: seq<Label>, s': State)
    requires f != NoFaults && Exchanging(c, s, t) && Target(c, s.ops[t]) in c.nodes
    ensures Leads(c, f, v, s, ls, s') && Moved(f, s, s', t) && s'.stores == s.stores
    ensures s'.alive == s.alive[Target(c, s.ops[t]) := false]
    ensures t in s'.ops && s'.ops[t] == s.ops[t].(i := s.ops[t].i + 1, phase := Consulting, reply := None)
  {
    var ls1, s1 := Breaks(c, f, v, s, t);
    OneStep(c, f, v, s1, Report(t));
    s' := Step(c, s1, Report(t));
    Join(c, f, v, s, ls1, s1, [Report(t)], s');
    ls := ls1 + [Report(t)];
    OwnGrows(s.log, s1.log, EventOf(c, s1, Report(t)), s.ops[t].id);
    FailMoves(f, s, s', t, Target(c, s.ops[t]));
  }

  /** The replica performs the request and its reply arrives. */
  lemma Delivers(c: Config, f: Faults, v: Overlap, s: State, t: nat) returns (ls: seq<Label>, s': State)
    requires AtReplica(c, s, t, Sending) && s.stores.Keys == c.nodes && Target(c, s.ops[t]) in c.nodes
    requires Target(c, s.ops[t]) !in s.crashed
    ensures Leads(c, f, v, s, ls, s') && Moved(f, s, s', t) && s'.alive == s.alive && t in s'.ops
    ensures var o := s.ops[t]; var n := Target(c, o);
            && s'.stores == s.stores[n := Exec(s.stores[n], o.req).0]
            && s'.ops[t].id == o.id
            && s'.ops[t] == AfterReply(o.(point := s'.ops[t].point), Exec(s.stores[n], o.req).1)
  {
    StepMoves(c, f, v, s, Perform(t), t);
    var s1 := Step(c, s, Perform(t));
    StepMoves(c, f, v, s1, Reply(t), t);
    s' := Step(c, s1, Reply(t));
    Join(c, f, v, s, [Perform(t)], s1, [Reply(t)], s');
    ls := [Perform(t)] + [Reply(t)];
    MovedTwice(f, s, s1, s', t);
  }

  /** The exchange is lost, after or without the replica having performed the request. */
  lemma Loses(c: Config, f: Faults, v: Overlap, s: State, t: nat, applied: bool) returns (ls: seq<Label>, s': State)
    requires f != NoFaults && AtReplica(c, s, t, Sending) && s.stores.Keys == c.nodes && Target(c, s.ops[t]) in c.nodes
    requires Up(s.alive, Target(c, s.ops[t])) && (applied ==> Target(c, s.ops[t]) !in s.crashed)
    ensures Leads(c, f, v, s, ls, s') && Moved(f, s, s', t) && s'.alive == s.alive[Target(c, s.ops[t]) := false] && t in s'.ops
    ensures var o := s.ops[t]; var n := Target(c, o);
            && s'.stores == (if applied then s.stores[n := Exec(s.stores[n], o.req).0] else s.stores)
            && s'.ops[t] == o.(i := o.i + 1, phase := Consulting, reply := None, point := s'.ops[t].point)
  {
    if applied {
      StepMoves(c, f, v, s, Perform(t), t);
      var s1 := Step(c, s, Perform(t));
      ls, s' := Fails(c, f, v, s1, t);
      Join(c, f, v, s, [Perform(t)], s1, ls, s');
      ls := [Perform(t)] + ls;
      MovedTwice(f, s, s1, s', t);
    } else {
      ls, s' := Fails(c, f, v, s, t);
    }
  }

  // ---------- The loop ----------

  /** What the loop still has to do for thread `t`. */
  function Ahead(c: Config, s: State, t: nat, fates: nat -> Fate): Outcome
    requires ValidConfig(c) && AtTop(c, s, t)
  {
    var o := s.ops[t];
    Routed(c.prefs(o.req.key), o.i, o.req, s.stores, s.alive, o.first, fates)
  }

  lemma FatesStay(f: Faults, s: State, s': State, t: nat, prefs: seq<Node>, fates: nat -> Fate)
    requires Moved(f, s, s', t) && FatesAllowed(f, s, prefs, fates)
    ensures FatesAllowed(f, s', prefs, fates)
  {
  }

  /** Thread `t` asks whether its next replica is alive. */
  lemma Asks(c: Config, f: Faults, v: Overlap, s: State, t: nat) returns (s': State)
    requires ValidConfig(c) && AtTop(c, s, t) && s.ops[t].i < |c.prefs(s.ops[t].req.key)|
    ensures Leads(c, f, v, s, [Consult(t)], s') && Moved(f, s, s', t) && t in s'.ops
    ensures s'.stores == s.stores && s'.alive == s.alive && s'.crashed == s.crashed
    ensures var o := s.ops[t];
            s'.ops[t] == if Up(s.alive, c.prefs(o.req.key)[o.i]) then o.(phase := Sending) else o.(i := o.i + 1)
  {
    StepMoves(c, f, v, s, Consult(t), t);
    s' := Step(c, s, Consult(t));
  }

  /** One turn of the loop that does not end it. */
  lemma OneTurn(c: Config, f: Faults, v: Overlap, s: State, t: nat, fates: nat -> Fate) returns (ls: seq<Label>, s': State)
    requires ValidConfig(c) && AtTop(c, s, t) && FatesAllowed(f, s, c.prefs(s.ops[t].req.key), fates)
    requires var o := s.ops[t]; var prefs := c.prefs(o.req.key);
             o.i < |prefs| && (Up(s.alive, prefs[o.i]) && fates(o.i).Delivered? ==> IsWrite(o.req))
    ensures Leads(c, f, v, s, ls, s') && AtTop(c, s', t) && Moved(f, s, s', t)
    ensures var o, o' := s.ops[t], s'.ops[t]; o'.id == o.id && o'.req == o.req && o'.i == o.i + 1
    ensures Ahead(c, s, t, fates) == Ahead(c, s', t, fates)
  {
    var o := s.ops[t];
    var n := c.prefs(o.req.key)[o.i];
    s' := Asks(c, f, v, s, t);
    ls := [Consult(t)];
    if Up(s.alive, n) {
      var s1 := s';
      var rest;
      if fates(o.i).Lost? {
        rest, s' := Loses(c, f, v, s1, t, fates(o.i).applied);
      } else {
        rest, s' := Delivers(c, f, v, s1, t);
      }
      Join(c, f, v, s, ls, s1, rest, s');
      MovedTwice(f, s, s1, s', t);
      ls := ls + rest;
    }
  }

  /** From `s` thread `t` answered its request: stores and table are those of `out`, nothing else changed. */
  ghost predicate Answered(f: Faults, s: State, s': State, t: nat, out: Outcome) {
    && t in s.ops && s'.stores == out.stores && s'.alive == out.alive && s'.ops == s.ops - {t} && s'.beat == s.beat
    && NoneUp(s.alive, s'.alive) && s'.crashed == (if f == CrashStop then s.crashed + Downed(s.alive, s'.alive) else s.crashed)
    && Own(s.log, s'.log, s.ops[t].id)
    && |s'.log| > |s.log| && s'.log[|s'.log| - 1] == Responded(s.ops[t].id, out.resp)
  }

  lemma Returns(c: Config, f: Faults, v: Overlap, s: State, t: nat)
    requires Permitted(c, f, v, s, Return(t))
    ensures Leads(c, f, v, s, [Return(t)], Step(c, s, Return(t)))
    ensures Answered(f, s, Step(c, s, Return(t)), t, Outcome(s.stores, s.alive, AnswerOf(c, s.ops[t])))
  {
    OneStep(c, f, v, s, Return(t));
    assert Downed(s.alive, s.alive) == {};
  }

  lemma AnsweredLater(f: Faults, s: State, s1: State, s2: State, t: nat, out: Outcome)
    requires Moved(f, s, s1, t) && t in s1.ops && s1.ops[t].id == s.ops[t].id && Answered(f, s1, s2, t, out)
    ensures Answered(f, s, s2, t, out)
  {
    OwnJoins(s.log, s1.log, s2.log, s.ops[t].id);
    assert Downed(s.alive, s2.alive) == Downed(s.alive, s1.alive) + Downed(s1.alive, s2.alive);
    assert s1.ops - {t} == s.ops - {t};
  }

  lemma LastTurn(c: Config, f: Faults, v: Overlap, s: State, t: nat, fates: nat -> Fate) returns (ls: seq<Label>, s': State)
    requires ValidConfig(c) && AtTop(c, s, t) && FatesAllowed(f, s, c.prefs(s.ops[t].req.key), fates)
    requires var o := s.ops[t]; var prefs := c.prefs(o.req.key);
             o.i < |prefs| && Up(s.alive, prefs[o.i]) && fates(o.i).Delivered? && o.req.Get?
    ensures Leads(c, f, v, s, ls, s') && Answered(f, s, s', t, Ahead(c, s, t, fates))
  {
    var s1 := Asks(c, f, v, s, t);
    var two, s2 := Delivers(c, f, v, s1, t);
    Join(c, f, v, s, [Consult(t)], s1, two, s2);
    MovedTwice(f, s, s1, s2, t);
    Returns(c, f, v, s2, t);
    s' := Step(c, s2, Return(t));
    Join(c, f, v, s, [Consult(t)] + two, s2, [Return(t)], s');
    ls := [Consult(t)] + two + [Return(t)];
    AnsweredLater(f, s, s2, s', t, Ahead(c, s, t, fates));
  }

  /** Whatever the exchanges' fates, the loops of `route_write` and `route_read` are a run of one thread of the step
      machine, from any position in the preference list. */
  lemma LoopIsRun(c: Config, f: Faults, v: Overlap, s: State, t: nat, fates: nat -> Fate) returns (ls: seq<Label>, s': State)
    requires ValidConfig(c) && AtTop(c, s, t) && FatesAllowed(f, s, c.prefs(s.ops[t].req.key), fates)
    ensures Leads(c, f, v, s, ls, s') && Answered(f, s, s', t, Ahead(c, s, t, fates))
    decreases |c.prefs(s.ops[t].req.key)| - s.ops[t].i
  {
    var o := s.ops[t];
    var prefs := c.prefs(o.req.key);
    if o.i == |prefs| {
      Returns(c, f, v, s, t);
      ls, s' := [Return(t)], Step(c, s, Return(t));
    } else if Up(s.alive, prefs[o.i]) && fates(o.i).Delivered? && !IsWrite(o.req) {
      ls, s' := LastTurn(c, f, v, s, t, fates);
    } else {
      var turn, s1 := OneTurn(c, f, v, s, t, fates);
      FatesStay(f, s, s1, t, prefs, fates);
      var rest;
      rest, s' := LoopIsRun(c, f, v, s1, t, fates);
      Join(c, f, v, s, turn, s1, rest, s');
      AnsweredLater(f, s, s1, s', t, Ahead(c, s, t, fates));
      ls := turn + rest;
    }
  }

  /** Request `req` was routed from `s`: stores, table and answer are those the loop computes, under crash-stop faults
      exactly the nodes it found failing have crashed, and the log has grown by this request alone. */
  ghost predicate RoutedFrom(f: Faults, s: State, s': State, req: Request, out: Outcome) {
    && s'.stores == out.stores && s'.alive == out.alive && s'.ops == s.ops && s'.beat == s.beat
    && NoneUp(s.alive, s'.alive) && s'.crashed == (if f == CrashStop then s.crashed + Downed(s.alive, s'.alive) else s.crashed)
    && Own(s.log + [Invoked(req)], s'.log, |s.log|)
    && s'.log[|s'.log| - 1] == Responded(|s.log|, out.resp)
  }

  lemma RoutedRun(c: Config, f: Faults, v: Overlap, s: State, t: nat, req: Request, fates: nat -> Fate)
    returns (ls: seq<Label>, s': State)
    requires ValidConfig(c) && s.stores.Keys == c.nodes
    requires Permitted(c, f, v, s, Begin(t, req)) && FatesAllowed(f, s, c.prefs(req.key), fates)
    ensures Leads(c, f, v, s, ls, s')
    ensures RoutedFrom(f, s, s', req, Routed(c.prefs(req.key), 0, req, s.stores, s.alive, None, fates))
  {
    var s1 := Step(c, s, Begin(t, req));
    OneStep(c, f, v, s, Begin(t, req));
    var rest;
    rest, s' := LoopIsRun(c, f, v, s1, t, fates);
    Join(c, f, v, s, [Begin(t, req)], s1, rest, s');
    ls := [Begin(t, req)] + rest;
    assert s1.ops - {t} == s.ops;
  }

  /** The loops refine the step machine.  After any run, under any faults and any discipline on overlap that lets the
      request begin, an idle thread that runs the loop, with fates those faults allow, continues the run; it ends with
      the stores, the table and the answer the loop computes. */
  lemma RoutingContinues(c: Config, f: Faults, v: Overlap, ls: seq<Label>, t: nat, req: Request, fates: nat -> Fate)
    returns (ls': seq<Label>)
    requires ValidConfig(c) && Run(c, f, v, ls) && After(c, ls).stores.Keys == c.nodes
    requires Permitted(c, f, v, After(c, ls), Begin(t, req)) && FatesAllowed(f, After(c, ls), c.prefs(req.key), fates)
    ensures ls <= ls' && Run(c, f, v, ls')
    ensures var s := After(c, ls);
            RoutedFrom(f, s, After(c, ls'), req, Routed(c.prefs(req.key), 0, req, s.stores, s.alive, None, fates))
  {
    var s := After(c, ls);
    var more, s' := RoutedRun(c, f, v, s, t, req, fates);
    Continue(c, f, v, ls, more, s');
    ls' := ls + more;
  }

  // ---------- A heartbeat sweep ----------

  /** Pinging the nodes in order, each ping answered exactly by the nodes that are up, and recording each result. */
  function SweepOf(order: seq<Node>, crashed: set<Node>): seq<Label> {
    if order == [] then [] else [Probe(order[0], order[0] !in crashed)] + [Record] + SweepOf(order[1..], crashed)
  }

  lemma ProbeAndRecord(c: Config, v: Overlap, s: State, n: Node) returns (s': State)
    requires s.beat == Resting && n in c.nodes
    ensures Leads(c, CrashStop, v, s, [Probe(n, n !in s.crashed)] + [Record], s')
    ensures s' == s.(alive := s.alive[n := n !in s.crashed], log := s'.log)
  {
    var up := n !in s.crashed;
    var s1 := Step(c, s, Probe(n, up));
    OneStep(c, CrashStop, v, s, Probe(n, up));
    OneStep(c, CrashStop, v, s1, Record);
    s' := Step(c, s1, Record);
    Join(c, CrashStop, v, s, [Probe(n, up)], s1, [Record], s');
  }

  /** One full sweep with truthful pings and nothing in between makes the table equal the real node states. */
  lemma {:induction false} SweepTellsTheTruth(c: Config, v: Overlap, s: State, order: seq<Node>) returns (s': State)
    requires s.beat == Resting && forall n :: n in order ==> n in c.nodes
    ensures Leads(c, CrashStop, v, s, SweepOf(order, s.crashed), s')
    ensures s' == s.(alive := s'.alive, log := s'.log)
    ensures (forall n :: n in order ==> (IsAlive(s', n) <==> n !in s.crashed))
    ensures (forall n :: n !in order ==> (IsAlive(s', n) <==> IsAlive(s, n)))
    decreases order
  {
    if order == [] {
      Nowhere(c, CrashStop, v, s);
      s' := s;
    } else {
      var s1 := ProbeAndRecord(c, v, s, order[0]);
      s' := SweepTellsTheTruth(c, v, s1, order[1..]);
      Join(c, CrashStop, v, s, [Probe(order[0], order[0] !in s.crashed)] + [Record], s1, SweepOf(order[1..], s.crashed), s');
    }
  }
}
