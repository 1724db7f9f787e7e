/** What every run of the failover machine keeps, whatever fails: each request is performed first at most once, and
    answers with the first reply that arrived, or with the error if none did. */
module FailoverHistory {
  import opened KvSpec
  import opened Failover
  import opened History

  /** How a request's record relates to the log. */
  predicate Recorded(log: Log, o: Op) {
    && o.id < |log| && log[o.id] == Invoked(o.req) && !o.req.Ping?
    && (o.point.None? ==> forall p :: 0 <= p < |log| ==> !FirstServe(log[p], o.id))
    && (o.point.Some? ==> FirstServedWith(log, o.id, |log|, o.point.value))
    && (o.reply.Some? ==> !o.reply.value.Error? && ServedWith(log, o.id, |log|, o.reply.value))
    && (o.first.None? ==> NeverAcked(log, o.id))
    && (o.first.Some? ==> !o.first.value.Error? && ServedWith(log, o.id, |log|, o.first.value)
                          && FirstAckedWith(log, o.id, |log|, o.first.value))
  }

  predicate OpShape(c: Config, log: Log, o: Op) {
    && Recorded(log, o)
    && o.i <= |Prefs(c, o)|
    && (o.phase == Sending || o.phase == Awaiting || o.phase == Failing ==> o.i < |Prefs(c, o)|)
    && (o.reply.Some? <==> o.phase == Awaiting)
    && (o.phase == Answering ==> o.req.Get? && o.first.Some?)
    && (o.req.Get? && o.first.Some? ==> o.phase == Answering)
    && (o.point.None? ==> o.reply.None? && o.first.None?)
    && (o.point.Some? && (o.phase == Consulting || o.phase == Sending) ==> o.i > 0)
  }

  predicate DistinctIds(s: State) {
    forall t, u :: t in s.ops && u in s.ops && t != u ==> s.ops[t].id != s.ops[u].id
  }

  predicate AnswersAreFinal(s: State) {
    forall j, t :: 0 <= j < |s.log| && s.log[j].Responded? && t in s.ops ==> s.ops[t].id != s.log[j].id
  }

  predicate OpsShape(c: Config, s: State) {
    (forall t :: t in s.ops ==> OpShape(c, s.log, s.ops[t])) && DistinctIds(s) && AnswersAreFinal(s)
  }

  predicate HistoryShape(log: Log) {
    LogShape(log) && AcksAnswer(log) && AcksComeLater(log)
  }

  ghost predicate Shape(c: Config, s: State) {
    s.stores.Keys == c.nodes && s.crashed <= c.nodes && OpsShape(c, s) && HistoryShape(s.log)
  }

  /** Requests are answered with the first reply that arrived, and with the error exactly when none did. */
  predicate AcksAnswer(log: Log) {
    forall j :: 0 <= j < |log| && log[j].Responded? ==>
      if log[j].resp.Error? then NeverAcked(log, log[j].id) else FirstAckedWith(log, log[j].id, j, log[j].resp)
  }

  lemma AcksAnswerGrows(log: Log, e: Event)
    requires AcksAnswer(log)
    requires e.Acked? ==> forall j :: 0 <= j < |log| && log[j].Responded? ==> log[j].id != e.id
    requires e.Responded? ==> if e.resp.Error? then NeverAcked(log, e.id) else FirstAckedWith(log, e.id, |log|, e.resp)
    ensures AcksAnswer(log + [e])
  {
    var log' := log + [e];
    forall j | 0 <= j < |log'| && log'[j].Responded?
      ensures if log'[j].resp.Error? then NeverAcked(log', log'[j].id) else FirstAckedWith(log', log'[j].id, j, log'[j].resp)
    {
      ServedWithGrows(log, e, log'[j].id, j, log'[j].resp);
    }
  }

  lemma RecordedGrows(log: Log, o: Op, e: Event)
    requires Recorded(log, o) && !FirstServe(e, o.id) && (e.Acked? ==> e.id != o.id)
    ensures Recorded(log + [e], o)
  {
    if o.point.Some? { ServedWithGrows(log, e, o.id, |log|, o.point.value); }
    if o.reply.Some? { ServedWithGrows(log, e, o.id, |log|, o.reply.value); }
    if o.first.Some? { ServedWithGrows(log, e, o.id, |log|, o.first.value); }
  }

  lemma PerformRecorded(log: Log, o: Op, n: Node, r: Response)
    requires Recorded(log, o) && !r.Error? && (o.point.None? ==> o.first.None?)
    ensures Recorded(log + [Served(o.id, n, o.point.None?, r)], AfterPerform(o, r))
  {
    var e := Served(o.id, n, o.point.None?, r);
    NewEventCounts(log, e);
    if o.point.Some? { ServedWithGrows(log, e, o.id, |log|, o.point.value); }
    if o.first.Some? { ServedWithGrows(log, e, o.id, |log|, o.first.value); }
  }

  lemma ReplyRecorded(log: Log, o: Op, n: Node)
    requires Recorded(log, o) && o.reply.Some? && (o.first.None? || IsWrite(o.req))
    ensures Recorded(log + [Acked(o.id, n, o.first.None?, o.reply.value)], AfterReply(o, o.reply.value))
  {
    var e := Acked(o.id, n, o.first.None?, o.reply.value);
    NewEventCounts(log, e);
    if o.point.Some? { ServedWithGrows(log, e, o.id, |log|, o.point.value); }
    ServedWithGrows(log, e, o.id, |log|, o.reply.value);
    if o.first.Some? { ServedWithGrows(log, e, o.id, |log|, o.first.value); }
  }

  lemma NewEventCounts(log: Log, e: Event)
    ensures e.Served? && e.id < |log| ==> ServedWith(log + [e], e.id, |log| + 1, e.resp)
    ensures e.Served? && e.id < |log| && e.first ==> FirstServedWith(log + [e], e.id, |log| + 1, e.resp)
    ensures e.Acked? && e.id < |log| && e.first ==> FirstAckedWith(log + [e], e.id, |log| + 1, e.resp)
  {
    assert (log + [e])[|log|] == e;
  }

  lemma BeginRecorded(log: Log, req: Request)
    requires LogShape(log) && AcksComeLater(log) && !req.Ping?
    ensures Recorded(log + [Invoked(req)], Op(|log|, req, 0, Consulting, None, None, None))
  {
    assert forall p :: 0 <= p < |log| && log[p].Served? ==> Performed(log, p);
  }

  lemma ActorShape(c: Config, s: State, l: Label)
    requires Enabled(c, s, l) && Actor(l) >= 0 && !l.Return?
    requires if l.Begin? then LogShape(s.log) && AcksComeLater(s.log) else OpShape(c, s.log, s.ops[Actor(l)])
    ensures OpShape(c, s.log + [EventOf(c, s, l)], OpAfter(c, s, l))
  {
    var e := EventOf(c, s, l);
    if l.Perform? {
      PerformRecorded(s.log, s.ops[l.t], Target(c, s.ops[l.t]), e.resp);
    } else if l.Reply? {
      ReplyRecorded(s.log, s.ops[l.t], Target(c, s.ops[l.t]));
    } else if l.Begin? {
      BeginRecorded(s.log, l.req);
    } else {
      RecordedGrows(s.log, s.ops[l.t], e);
    }
  }

  lemma OtherShape(c: Config, s: State, l: Label, t: nat)
    requires Enabled(c, s, l) && t in s.ops && t != Actor(l) && DistinctIds(s) && OpShape(c, s.log, s.ops[t])
    ensures OpShape(c, s.log + [EventOf(c, s, l)], s.ops[t])
  {
    RecordedGrows(s.log, s.ops[t], EventOf(c, s, l));
  }

  /** Replies belong to requests that were invoked before. */
  predicate AcksComeLater(log: Log) {
    forall p :: 0 <= p < |log| && log[p].Acked? ==> log[p].id < p
  }

  /** A step creates the request it invokes; otherwise requests keep their id and their command. */
  lemma OpsKeepIdentity(c: Config, s: State, l: Label)
    requires Enabled(c, s, l)
    ensures var s' := Step(c, s, l);
            forall t :: t in s'.ops ==>
              if t == Actor(l) && l.Begin? then s'.ops[t].id == |s.log| && s'.ops[t].req == l.req
              else t in s.ops && s'.ops[t].id == s.ops[t].id && s'.ops[t].req == s.ops[t].req
  {
  }

  lemma IdsStayDistinct(c: Config, s: State, l: Label)
    requires DistinctIds(s) && (forall t :: t in s.ops ==> s.ops[t].id < |s.log|) && Enabled(c, s, l)
    ensures DistinctIds(Step(c, s, l))
  {
    OpsKeepIdentity(c, s, l);
  }

  lemma AnswersStayFinal(c: Config, s: State, l: Label)
    requires AnswersAreFinal(s) && DistinctIds(s) && LogShape(s.log) && Enabled(c, s, l)
    ensures AnswersAreFinal(Step(c, s, l))
  {
    var s' := Step(c, s, l);
    OpsKeepIdentity(c, s, l);
    forall j, t | 0 <= j < |s'.log| && s'.log[j].Responded? && t in s'.ops ensures s'.ops[t].id != s'.log[j].id {
      if j < |s.log| { assert s'.log[j] == s.log[j] && Accounted(s.log, j); }
    }
  }

  lemma OpShapeStep(c: Config, s: State, l: Label, t: nat)
    requires OpsShape(c, s) && HistoryShape(s.log) && Enabled(c, s, l) && t in OpsAfter(c, s, l)
    ensures OpShape(c, s.log + [EventOf(c, s, l)], OpsAfter(c, s, l)[t])
  {
    if t == Actor(l) {
      ActorShape(c, s, l);
    } else {
      OtherShape(c, s, l, t);
    }
  }

  /** What a new event may say about requests that were answered, performed or acknowledged before. */
  lemma EventShape(c: Config, s: State, l: Label)
    requires AnswersAreFinal(s) && Enabled(c, s, l)
    requires l.Perform? || l.Reply? ==> Recorded(s.log, s.ops[l.t])
    ensures var e := EventOf(c, s, l);
            && (e.Served? ==> Performed(s.log + [e], |s.log|))
            && (e.Served? && e.first ==> forall p :: 0 <= p < |s.log| ==> !FirstServe(s.log[p], e.id))
            && (e.Served? || e.Acked? ==>
                  e.id < |s.log| && forall j :: 0 <= j < |s.log| && s.log[j].Responded? ==> s.log[j].id != e.id)
  {
  }

  lemma AnswerShape(c: Config, log: Log, o: Op)
    requires OpShape(c, log, o)
    ensures var e := Responded(o.id, AnswerOf(c, o));
            && Accounted(log + [e], |log|)
            && if e.resp.Error? then NeverAcked(log, e.id) else FirstAckedWith(log, e.id, |log|, e.resp)
  {
    var e := Responded(o.id, AnswerOf(c, o));
    assert (log + [e])[|log|] == e;
    if o.first.Some? { ServedWithGrows(log, e, o.id, |log|, o.first.value); }
  }

  lemma HistoryGrows(c: Config, s: State, l: Label)
    requires HistoryShape(s.log) && AnswersAreFinal(s) && Enabled(c, s, l)
    requires l.Perform? || l.Reply? || l.Return? ==> OpShape(c, s.log, s.ops[l.t])
    ensures HistoryShape(s.log + [EventOf(c, s, l)])
  {
    var e := EventOf(c, s, l);
    EventShape(c, s, l);
    if l.Return? { AnswerShape(c, s.log, s.ops[l.t]); }
    LogShapeGrows(s.log, e);
    AcksAnswerGrows(s.log, e);
  }

  lemma HistoryStep(c: Config, s: State, l: Label)
    requires HistoryShape(s.log) && OpsShape(c, s) && Enabled(c, s, l)
    ensures HistoryShape(Step(c, s, l).log)
  {
    HistoryGrows(c, s, l);
  }

  lemma OpsStep(c: Config, s: State, l: Label)
    requires OpsShape(c, s) && HistoryShape(s.log) && Enabled(c, s, l)
    ensures OpsShape(c, Step(c, s, l))
  {
    var s' := Step(c, s, l);
    IdsStayDistinct(c, s, l);
    AnswersStayFinal(c, s, l);
    forall t | t in s'.ops ensures OpShape(c, s'.log, s'.ops[t]) { OpShapeStep(c, s, l, t); }
  }

  lemma NodesStep(c: Config, s: State, l: Label)
    requires s.stores.Keys == c.nodes && s.crashed <= c.nodes && Enabled(c, s, l)
    ensures Step(c, s, l).stores.Keys == c.nodes && Step(c, s, l).crashed <= c.nodes
  {
  }

  lemma ShapeStep(c: Config, s: State, l: Label)
    requires ValidConfig(c) && Shape(c, s) && Enabled(c, s, l)
    ensures Shape(c, Step(c, s, l))
  {
    NodesStep(c, s, l);
    OpsStep(c, s, l);
    HistoryStep(c, s, l);
  }

  /** In every run, whatever fails and overlaps, the history has this shape. */
  lemma {:induction false} ShapeRun(c: Config, f: Faults, v: Overlap, ls: seq<Label>)
    requires ValidConfig(c) && Run(c, f, v, ls)
    ensures Shape(c, After(c, ls))
  {
    if ls != [] {
      ShapeRun(c, f, v, ls[..|ls| - 1]);
      ShapeStep(c, After(c, ls[..|ls| - 1]), ls[|ls| - 1]);
    }
  }

  // ---------- One writer per key ----------

  predicate OneWriterPerKey(s: State) {
    forall t, u :: t in s.ops && u in s.ops && t != u && IsWrite(s.ops[t].req) && IsWrite(s.ops[u].req) ==>
      s.ops[t].req.key != s.ops[u].req.key
  }

  lemma OneWriterStep(c: Config, s: State, l: Label)
    requires OneWriterPerKey(s) && Enabled(c, s, l) && OverlapAllowed(OneWriter, s, l)
    ensures OneWriterPerKey(Step(c, s, l))
  {
    OpsKeepIdentity(c, s, l);
  }
}
