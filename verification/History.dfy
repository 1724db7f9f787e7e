/** Logs of events: requests invoked, performed by a store, and answered; and what failed or was noticed between. */
module History {
  import opened KvSpec

  /** A request is identified by the log index of its invocation.  `Served` says that a node performed it, `first` that
      none had before; `Acked` that the node's reply arrived, `first` that none had before. */
  datatype Event =
    | Invoked(req: Request)
    | Cleared(id: nat, node: Node)
    | Skipped(id: nat, node: Node)
    | Served(id: nat, node: Node, first: bool, resp: Response)
    | Acked(id: nat, node: Node, first: bool, resp: Response)
    | Broke(id: nat, node: Node, applied: bool)
    | Responded(id: nat, resp: Response)
    | Probed(node: Node, up: bool)
    | MarkedUp(node: Node)
    | MarkedDown(node: Node)
    | Crashed(node: Node)
    | Restarted(node: Node)

  type Log = seq<Event>

  predicate Serve(e: Event, id: nat) {
    e.Served? && e.id == id
  }

  predicate FirstServe(e: Event, id: nat) {
    Serve(e, id) && e.first
  }

  /** Some node performed request `id` with this response, after its invocation and before `end`. */
  predicate ServedWith(log: Log, id: nat, end: nat, resp: Response)
    requires end <= |log|
  {
    exists p :: id < p < end && Serve(log[p], id) && log[p].resp == resp
  }

  /** The first node to perform request `id` gave this response, after the invocation and before `end`. */
  predicate FirstServedWith(log: Log, id: nat, end: nat, resp: Response)
    requires end <= |log|
  {
    exists p :: id < p < end && FirstServe(log[p], id) && log[p].resp == resp
  }

  /** The first reply to arrive for request `id`, before `end`, was this. */
  predicate FirstAckedWith(log: Log, id: nat, end: nat, resp: Response)
    requires end <= |log|
  {
    exists p :: id < p < end && log[p].Acked? && log[p].id == id && log[p].first && log[p].resp == resp
  }

  predicate NeverAcked(log: Log, id: nat) {
    forall p :: 0 <= p < |log| && log[p].Acked? ==> log[p].id != id
  }

  /** An answer other than an error is the response of some node that performed the request, and nobody performs a
      request after it was answered. */
  predicate Accounted(log: Log, j: nat)
    requires j < |log| && log[j].Responded?
  {
    && log[j].id < j && log[log[j].id].Invoked?
    && (forall p :: 0 <= p < |log| && Serve(log[p], log[j].id) ==> p < j)
    && (!log[j].resp.Error? ==> ServedWith(log, log[j].id, j, log[j].resp))
  }

  /** A performance belongs to one invoked request, and no request has two that are first. */
  predicate Performed(log: Log, p: nat)
    requires p < |log| && log[p].Served?
  {
    && log[p].id < p && log[log[p].id].Invoked? && !log[log[p].id].req.Ping?
    && (log[p].first ==> forall q :: 0 <= q < |log| && q != p ==> !FirstServe(log[q], log[p].id))
  }

  predicate LogShape(log: Log) {
    && (forall j :: 0 <= j < |log| && log[j].Responded? ==> Accounted(log, j))
    && (forall p :: 0 <= p < |log| && log[p].Served? ==> Performed(log, p))
  }

  /** The answers are those given where the requests first took effect. */
  predicate PointsAnswer(log: Log) {
    forall j :: 0 <= j < |log| && log[j].Responded? && !log[j].resp.Error? ==>
      FirstServedWith(log, log[j].id, j, log[j].resp)
  }

  lemma ServedWithGrows(log: Log, e: Event, id: nat, end: nat, resp: Response)
    requires end <= |log|
    ensures ServedWith(log, id, end, resp) ==> ServedWith(log + [e], id, end, resp) && ServedWith(log + [e], id, |log| + 1, resp)
    ensures FirstServedWith(log, id, end, resp) ==>
              FirstServedWith(log + [e], id, end, resp) && FirstServedWith(log + [e], id, |log| + 1, resp)
    ensures FirstAckedWith(log, id, end, resp) ==>
              FirstAckedWith(log + [e], id, end, resp) && FirstAckedWith(log + [e], id, |log| + 1, resp)
  {
    assert forall p :: 0 <= p < |log| ==> (log + [e])[p] == log[p];
  }

  lemma LogShapeGrows(log: Log, e: Event)
    requires LogShape(log)
    requires e.Served? && e.first ==> forall p :: 0 <= p < |log| ==> !FirstServe(log[p], e.id)
    requires e.Served? ==> forall j :: 0 <= j < |log| && log[j].Responded? ==> log[j].id != e.id
    requires e.Responded? ==> Accounted(log + [e], |log|)
    requires e.Served? ==> Performed(log + [e], |log|)
    ensures LogShape(log + [e])
  {
    forall j | 0 <= j < |log| && log[j].Responded? ensures Accounted(log + [e], j) {
      assert Accounted(log, j);
      ServedWithGrows(log, e, log[j].id, j, log[j].resp);
    }
    forall p | 0 <= p < |log| && log[p].Served? ensures Performed(log + [e], p) {
      assert Performed(log, p);
    }
  }

  lemma PointsAnswerGrows(log: Log, e: Event)
    requires PointsAnswer(log)
    requires e.Responded? && !e.resp.Error? ==> FirstServedWith(log, e.id, |log|, e.resp)
    ensures PointsAnswer(log + [e])
  {
    forall j | 0 <= j < |log| + 1 && (log + [e])[j].Responded? && !(log + [e])[j].resp.Error?
      ensures FirstServedWith(log + [e], (log + [e])[j].id, j, (log + [e])[j].resp)
    {
      ServedWithGrows(log, e, (log + [e])[j].id, j, (log + [e])[j].resp);
    }
  }
}
