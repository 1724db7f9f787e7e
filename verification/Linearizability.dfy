/** Linearizability of the client-visible history, and why a request can be placed where a node first performed it. */
module Linearizability {
  import opened KvSpec
  import opened History
  import opened Answers

  datatype Done = Done(id: nat, req: Request, resp: Response)

  /** One empty map after the requests in `order`, one after another. */
  function MapAfter(order: seq<Done>): Store {
    if order == [] then map[] else Exec(MapAfter(order[..|order| - 1]), order[|order| - 1].req).0
  }

  /** Every recorded response is what that one map answers. */
  predicate OneMapHistory(order: seq<Done>) {
    forall x :: 0 <= x < |order| ==> order[x].resp == Exec(MapAfter(order[..x]), order[x].req).1
  }

  function Requests(order: seq<Done>): seq<Request> {
    seq(|order|, x requires 0 <= x < |order| => order[x].req)
  }

  function Responses(order: seq<Done>): seq<Response> {
    seq(|order|, x requires 0 <= x < |order| => order[x].resp)
  }

  lemma {:induction false} MapAfterIsMapOf(order: seq<Done>)
    ensures MapAfter(order) == MapOf(map[], Requests(order))
  {
    if order != [] {
      MapAfterIsMapOf(order[..|order| - 1]);
      assert Requests(order)[..|order| - 1] == Requests(order[..|order| - 1]);
    }
  }

  /** A history is one of one map if and only if every answer is the one its key's last earlier write calls for; and the
      map at the end holds what the last writes left. */
  lemma HistoryAnswers(order: seq<Done>)
    ensures OneMapHistory(order) <==> LikeOneMap(map[], Requests(order), Responses(order))
    ensures forall k, v :: Lookup(MapAfter(order), k) == Some(v) <==> Holds(map[], Requests(order), |order|, k, v)
  {
    var rs := Requests(order);
    forall x | 0 <= x < |order|
      ensures order[x].resp == Exec(MapAfter(order[..x]), order[x].req).1
              <==> AnswersAt(map[], rs, x, Responses(order)[x])
    {
      MapAfterIsMapOf(order[..x]);
      assert Requests(order[..x]) == rs[..x];
      AnswerOfMap(map[], rs, x, order[x].resp);
    }
    MapAfterIsMapOf(order);
    forall k, v ensures Lookup(MapAfter(order), k) == Some(v) <==> Holds(map[], rs, |order|, k, v) {
      MapHolds(map[], rs, k, v);
    }
  }

  /** A request answered before another was invoked comes before it. */
  predicate RealTime(log: Log, order: seq<Done>) {
    forall x, y, j :: 0 <= x < |order| && 0 <= y < |order| && 0 <= j < |log| ==>
      (log[j].Responded? && log[j].id == order[x].id && j < order[y].id ==> x < y)
  }

  predicate Contains(order: seq<Done>, id: nat, resp: Response) {
    exists x :: 0 <= x < |order| && order[x].id == id && order[x].resp == resp
  }

  /** `order` is a history of one map made of requests of the log, none twice; every request answered without
      an error is in it with its answer; and it respects real time. */
  ghost predicate Linearization(log: Log, order: seq<Done>) {
    && OneMapHistory(order)
    && (forall x, y :: 0 <= x < y < |order| ==> order[x].id != order[y].id)
    && (forall x :: 0 <= x < |order| ==> order[x].id < |log| && log[order[x].id] == Invoked(order[x].req))
    && (forall j :: 0 <= j < |log| && log[j].Responded? && !log[j].resp.Error? ==> Contains(order, log[j].id, log[j].resp))
    && RealTime(log, order)
  }

  ghost predicate Linearizable(log: Log) {
    exists order :: Linearization(log, order)
  }

  predicate Point(log: Log, p: nat)
    requires p < |log|
  {
    log[p].Served? && log[p].first && log[p].id < p && log[log[p].id].Invoked?
  }

  /** The log indices of the first performances, in log order. */
  function Points(log: Log): (ps: seq<nat>)
    ensures forall x :: 0 <= x < |ps| ==> ps[x] < |log| && Point(log, ps[x])
    ensures forall x, y :: 0 <= x < y < |ps| ==> ps[x] < ps[y]
    ensures forall p :: 0 <= p < |log| && Point(log, p) ==> p in ps
  {
    if log == [] then []
    else
      var ps := Points(log[..|log| - 1]);
      if Point(log, |log| - 1) then ps + [|log| - 1] else ps
  }

  function DoneAt(log: Log, p: nat): Done
    requires p < |log| && Point(log, p)
  {
    Done(log[p].id, log[log[p].id].req, log[p].resp)
  }

  /** The requests in the order of their first performances. */
  function Order(log: Log): seq<Done> {
    if log == [] then []
    else if Point(log, |log| - 1) then Order(log[..|log| - 1]) + [DoneAt(log, |log| - 1)]
    else Order(log[..|log| - 1])
  }

  lemma SameDone(log: Log, e: Event, p: nat)
    requires p < |log| && Point(log, p)
    ensures Point(log + [e], p) && DoneAt(log + [e], p) == DoneAt(log, p)
  {
  }

  lemma {:induction false} OrderFollowsPoints(log: Log)
    ensures |Order(log)| == |Points(log)|
    ensures forall x :: 0 <= x < |Order(log)| ==> Order(log)[x] == DoneAt(log, Points(log)[x])
  {
    if log != [] {
      var pre, e := log[..|log| - 1], log[|log| - 1];
      assert log == pre + [e];
      OrderFollowsPoints(pre);
      forall x | 0 <= x < |Points(pre)| ensures Order(pre)[x] == DoneAt(log, Points(pre)[x]) {
        SameDone(pre, e, Points(pre)[x]);
      }
    }
  }

  /** The one map: requests take effect at their first performance. */
  function OneMap(log: Log): Store {
    if log == [] then map[]
    else
      var m := OneMap(log[..|log| - 1]);
      if Point(log, |log| - 1) then Exec(m, log[log[|log| - 1].id].req).0 else m
  }

  /** The response given at `p` is the answer of the one map. */
  predicate LegalAt(log: Log, p: nat)
    requires p < |log|
  {
    Point(log, p) ==> log[p].resp == Exec(OneMap(log[..p]), log[log[p].id].req).1
  }

  ghost predicate Legal(log: Log) {
    forall p :: 0 <= p < |log| ==> LegalAt(log, p)
  }

  lemma OneMapGrows(log: Log, e: Event)
    ensures OneMap(log + [e]) == if Point(log + [e], |log|) then Exec(OneMap(log), log[e.id].req).0 else OneMap(log)
  {
    assert (log + [e])[..|log|] == log;
  }

  lemma LegalGrows(log: Log, e: Event)
    requires Legal(log) && LegalAt(log + [e], |log|)
    ensures Legal(log + [e])
  {
    forall p | 0 <= p < |log| ensures LegalAt(log + [e], p) {
      assert (log + [e])[..p] == log[..p];
      assert LegalAt(log, p);
    }
  }

  lemma LegalPrefix(log: Log)
    requires Legal(log) && log != []
    ensures Legal(log[..|log| - 1])
  {
    var pre := log[..|log| - 1];
    forall q | 0 <= q < |pre| ensures LegalAt(pre, q) {
      assert LegalAt(log, q) && pre[..q] == log[..q];
    }
  }

  lemma {:induction false} OrderIsOneMapHistory(log: Log)
    requires Legal(log)
    ensures MapAfter(Order(log)) == OneMap(log) && OneMapHistory(Order(log))
  {
    if log != [] {
      LegalPrefix(log);
      OrderIsOneMapHistory(log[..|log| - 1]);
      if Point(log, |log| - 1) {
        assert LegalAt(log, |log| - 1);
        ExtendHistory(Order(log[..|log| - 1]), DoneAt(log, |log| - 1));
      }
    }
  }

  lemma ExtendHistory(order: seq<Done>, d: Done)
    requires OneMapHistory(order) && d.resp == Exec(MapAfter(order), d.req).1
    ensures OneMapHistory(order + [d]) && MapAfter(order + [d]) == Exec(MapAfter(order), d.req).0
  {
    var o := order + [d];
    assert o[..|order|] == order;
    forall x | 0 <= x < |o| ensures o[x].resp == Exec(MapAfter(o[..x]), o[x].req).1 {
      if x < |order| {
        assert o[..x] == order[..x];
      }
    }
  }

  lemma PointOf(log: Log, j: nat) returns (x: nat)
    requires LogShape(log) && PointsAnswer(log) && j < |log| && log[j].Responded? && !log[j].resp.Error?
    ensures x < |Order(log)| == |Points(log)| && Points(log)[x] < j
    ensures Order(log)[x].id == log[j].id && Order(log)[x].resp == log[j].resp
  {
    OrderFollowsPoints(log);
    assert Accounted(log, j) && FirstServedWith(log, log[j].id, j, log[j].resp);
    var p :| log[j].id < p < j && FirstServe(log[p], log[j].id) && log[p].resp == log[j].resp;
    assert Point(log, p);
    x :| 0 <= x < |Points(log)| && Points(log)[x] == p;
  }

  lemma OrderIsDistinct(log: Log, x: nat, y: nat)
    requires LogShape(log) && x < |Order(log)| && y < |Order(log)| && Order(log)[x].id == Order(log)[y].id
    ensures x == y
  {
    var ps := Points(log);
    OrderFollowsPoints(log);
    assert FirstServe(log[ps[y]], Order(log)[y].id) && Performed(log, ps[x]);
  }

  lemma EarlierComesFirst(log: Log, x: nat, y: nat, j: nat)
    requires LogShape(log) && x < |Order(log)| && y < |Order(log)| && j < |log|
    requires log[j].Responded? && log[j].id == Order(log)[x].id && j < Order(log)[y].id
    ensures x < y
  {
    var ps := Points(log);
    OrderFollowsPoints(log);
    assert Accounted(log, j) && Serve(log[ps[x]], log[j].id);
    assert ps[x] < j < log[ps[y]].id < ps[y];
  }

  lemma OrderIsRealTime(log: Log)
    requires LogShape(log)
    ensures RealTime(log, Order(log))
  {
    forall x, y, j | 0 <= x < |Order(log)| && 0 <= y < |Order(log)| && 0 <= j < |log| && log[j].Responded?
                     && log[j].id == Order(log)[x].id && j < Order(log)[y].id
      ensures x < y
    {
      EarlierComesFirst(log, x, y, j);
    }
  }

  lemma OrderIsOfTheLog(log: Log)
    requires LogShape(log)
    ensures forall x :: 0 <= x < |Order(log)| ==> Order(log)[x].id < |log| && log[Order(log)[x].id] == Invoked(Order(log)[x].req)
    ensures forall x, y :: 0 <= x < y < |Order(log)| ==> Order(log)[x].id != Order(log)[y].id
  {
    OrderFollowsPoints(log);
    forall x, y | 0 <= x < y < |Order(log)| ensures Order(log)[x].id != Order(log)[y].id {
      if Order(log)[x].id == Order(log)[y].id { OrderIsDistinct(log, x, y); }
    }
  }

  /** A history whose first performances are all legal, and whose answers are those given there, is linearizable in the
      order of first performances.  A request that was performed and then answered with an error has its place too. */
  lemma LegalIsLinearizable(log: Log)
    requires LogShape(log) && PointsAnswer(log) && Legal(log)
    ensures Linearization(log, Order(log))
  {
    OrderIsOfTheLog(log);
    OrderIsOneMapHistory(log);
    OrderIsRealTime(log);
    forall j | 0 <= j < |log| && log[j].Responded? && !log[j].resp.Error? ensures Contains(Order(log), log[j].id, log[j].resp) {
      var x := PointOf(log, j);
    }
  }
}
