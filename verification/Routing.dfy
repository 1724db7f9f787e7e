/** What the router's loops over a preference list compute, for every way the exchanges can end. */
module Routing {
  import opened KvSpec
  import opened Failover

  predicate Up(alive: map<Node, bool>, n: Node) {
    n in alive && alive[n]
  }

  /** How an exchange with a replica ends: the reply arrives; or it fails, after or without the request having been
      applied, with stray bytes left on the connection. */
  datatype Fate = Delivered | Lost(applied: bool, stray: string)

  datatype Outcome = Outcome(stores: map<Node, Store>, alive: map<Node, bool>, resp: Response)

  /** From position `i` of the preference list on: skip suspected replicas; a read stops at the first reply, a write
      goes on to every replica and keeps the first reply; a failed exchange marks its replica down. */
  function Routed(prefs: seq<Node>, i: nat, req: Request, stores: map<Node, Store>, alive: map<Node, bool>,
                  first: Option<Response>, fates: nat -> Fate): Outcome
    requires i <= |prefs| && forall j :: 0 <= j < |prefs| ==> prefs[j] in stores
    decreases |prefs| - i
  {
    if i == |prefs| then Outcome(stores, alive, if first.Some? then first.value else NoLiveReplica(|prefs|))
    else
      var n := prefs[i];
      var (s, r) := Exec(stores[n], req);
      if !Up(alive, n) then Routed(prefs, i + 1, req, stores, alive, first, fates)
      else if fates(i).Lost? then
        Routed(prefs, i + 1, req, if fates(i).applied then stores[n := s] else stores, alive[n := false], first, fates)
      else if IsWrite(req) then
        Routed(prefs, i + 1, req, stores[n := s], alive, if first.None? then Some(r) else first, fates)
      else Outcome(stores[n := s], alive, r)
  }
}
