/** Replication and failover as a step machine: any number of router threads part way through their preference
    lists, one heartbeat thread that may be holding a ping result it has not recorded yet, and backend nodes
    that crash and restart between any two steps.  Every step appends one event to a log. */
module Failover {
  import opened KvSpec
  import opened History

  /** The backend nodes, and the replica preference list the ring gives each key. */
  datatype Config = Config(nodes: set<Node>, prefs: Key -> seq<Node>)

  /** What `get_nodes` guarantees of a preference list on a valid ring. */
  ghost predicate ValidConfig(c: Config) {
    forall k :: 0 < |c.prefs(k)| && NoRepeats(c.prefs(k)) && forall j :: 0 <= j < |c.prefs(k)| ==> c.prefs(k)[j] in c.nodes
  }

  /** Where a router thread stands in the loop of `route_read` or `route_write`: about to ask `is_alive`, about
      to send to the replica, waiting for the reply of a replica that has performed the request, in the catch block,
      or holding a read's answer. */
  datatype Phase = Consulting | Sending | Awaiting | Failing | Answering

  /** A request in progress.  Its `id` is the log index of its invocation, `i` the loop position in the
      preference list, `reply` the reply on its way, `first` the first reply that arrived, and `point` the response of
      the first replica that performed it. */
  datatype Op = Op(id: nat, req: Request, i: nat, phase: Phase, reply: Option<Response>, first: Option<Response>,
                   point: Option<Response>)

  datatype Beat = Resting | Pinged(node: Node, up: bool)

  datatype State = State(stores: map<Node, Store>, crashed: set<Node>, alive: map<Node, bool>, ops: map<nat, Op>,
                         beat: Beat, log: Log)

  datatype Label =
    | Begin(t: nat, req: Request)
    | Consult(t: nat)
    | Perform(t: nat)
    | Reply(t: nat)
    | Break(t: nat)
    | Report(t: nat)
    | Return(t: nat)
    | Probe(n: Node, up: bool)
    | Record
    | Crash(n: Node)
    | Restart(n: Node)

  /** Every node is assumed up until a heartbeat or a failed forward says otherwise. */
  function Init(c: Config): State {
    State(map n | n in c.nodes :: map[], {}, map n | n in c.nodes :: true, map[], Resting, [])
  }

  function Prefs(c: Config, o: Op): seq<Node> {
    if o.req.Ping? then [] else c.prefs(o.req.key)
  }

  predicate AtReplica(c: Config, s: State, t: nat, p: Phase) {
    t in s.ops && s.ops[t].phase == p && s.ops[t].i < |Prefs(c, s.ops[t])|
  }

  function Target(c: Config, o: Op): Node
    requires o.i < |Prefs(c, o)|
  {
    Prefs(c, o)[o.i]
  }

  predicate IsAlive(s: State, n: Node) {
    n in s.alive && s.alive[n]
  }

  function StoreOf(s: State, n: Node): Store {
    if n in s.stores then s.stores[n] else map[]
  }

  /** PING never enters the loop: the router answers it itself.  A reply on its way arrives even if its sender has
      crashed since. */
  predicate Enabled(c: Config, s: State, l: Label) {
    match l
    case Begin(t, req) => t !in s.ops && !req.Ping?
    case Consult(t) => AtReplica(c, s, t, Consulting)
    case Perform(t) => AtReplica(c, s, t, Sending) && Target(c, s.ops[t]) in s.stores && Target(c, s.ops[t]) !in s.crashed
    case Reply(t) => AtReplica(c, s, t, Awaiting) && s.ops[t].reply.Some?
    case Break(t) => AtReplica(c, s, t, Sending) || AtReplica(c, s, t, Awaiting)
    case Report(t) => AtReplica(c, s, t, Failing)
    case Return(t) => t in s.ops && (s.ops[t].phase == Answering
                                     || (s.ops[t].phase == Consulting && s.ops[t].i == |Prefs(c, s.ops[t])|))
    case Probe(n, up) => s.beat == Resting && n in c.nodes && (up ==> n !in s.crashed)
    case Record => s.beat.Pinged?
    case Crash(n) => n in c.nodes && n !in s.crashed
    case Restart(n) => n in s.crashed
  }

  function NoLiveReplica(tried: nat): Response {
    Error("no live replica for key (tried " + Decimal(tried) + ")")
  }

  function AnswerOf(c: Config, o: Op): Response {
    if o.first.Some? then o.first.value else NoLiveReplica(|Prefs(c, o)|)
  }

  /** The replica performed the request with response `r`. */
  function AfterPerform(o: Op, r: Response): Op {
    o.(phase := Awaiting, reply := Some(r), point := if o.point.None? then Some(r) else o.point)
  }

  /** The reply `r` arrived: a read returns it, a write keeps the first reply and moves on. */
  function AfterReply(o: Op, r: Response): Op {
    if IsWrite(o.req)
    then o.(i := o.i + 1, phase := Consulting, reply := None, first := if o.first.None? then Some(r) else o.first)
    else o.(phase := Answering, reply := None, first := Some(r))
  }

  /** The event a step appends to the log. */
  function EventOf(c: Config, s: State, l: Label): Event
    requires Enabled(c, s, l)
  {
    match l
    case Begin(_, req) => Invoked(req)
    case Consult(t) =>
      var o := s.ops[t];
      if IsAlive(s, Target(c, o)) then Cleared(o.id, Target(c, o)) else Skipped(o.id, Target(c, o))
    case Perform(t) =>
      var o := s.ops[t];
      Served(o.id, Target(c, o), o.point.None?, Exec(s.stores[Target(c, o)], o.req).1)
    case Reply(t) =>
      var o := s.ops[t];
      Acked(o.id, Target(c, o), o.first.None?, o.reply.value)
    case Break(t) => Broke(s.ops[t].id, Target(c, s.ops[t]), s.ops[t].phase == Awaiting)
    case Report(t) => MarkedDown(Target(c, s.ops[t]))
    case Return(t) => Responded(s.ops[t].id, AnswerOf(c, s.ops[t]))
    case Probe(n, up) => Probed(n, up)
    case Record => if s.beat.up then MarkedUp(s.beat.node) else MarkedDown(s.beat.node)
    case Crash(n) => Crashed(n)
    case Restart(n) => Restarted(n)
  }

  /** The record of the request a step works on, after that step. */
  function OpAfter(c: Config, s: State, l: Label): Op
    requires Enabled(c, s, l) && Actor(l) >= 0 && !l.Return?
  {
    match l
    case Begin(_, req) => Op(|s.log|, req, 0, Consulting, None, None, None)
    case Consult(t) =>
      var o := s.ops[t];
      if IsAlive(s, Target(c, o)) then o.(phase := Sending) else o.(i := o.i + 1)
    case Perform(t) => AfterPerform(s.ops[t], Exec(s.stores[Target(c, s.ops[t])], s.ops[t].req).1)
    case Reply(t) => AfterReply(s.ops[t], s.ops[t].reply.value)
    case Break(t) => s.ops[t].(phase := Failing, reply := None)
    case Report(t) => s.ops[t].(i := s.ops[t].i + 1, phase := Consulting)
  }

  /** The router thread a step belongs to, or -1. */
  function Actor(l: Label): int {
    match l
    case Begin(t, _) => t
    case Consult(t) => t
    case Perform(t) => t
    case Reply(t) => t
    case Break(t) => t
    case Report(t) => t
    case Return(t) => t
    case _ => -1
  }

  function OpsAfter(c: Config, s: State, l: Label): map<nat, Op>
    requires Enabled(c, s, l)
  {
    if Actor(l) < 0 then s.ops
    else if l.Return? then s.ops - {l.t}
    else s.ops[Actor(l) := OpAfter(c, s, l)]
  }

  function StoresAfter(c: Config, s: State, l: Label): map<Node, Store>
    requires Enabled(c, s, l)
  {
    if l.Perform? then
      var n := Target(c, s.ops[l.t]);
      s.stores[n := Exec(s.stores[n], s.ops[l.t].req).0]
    else if l.Restart? then s.stores[l.n := map[]]
    else s.stores
  }

  function AliveAfter(c: Config, s: State, l: Label): map<Node, bool>
    requires Enabled(c, s, l)
  {
    if l.Report? then s.alive[Target(c, s.ops[l.t]) := false]
    else if l.Record? then s.alive[s.beat.node := s.beat.up]
    else s.alive
  }

  function Step(c: Config, s: State, l: Label): State
    requires Enabled(c, s, l)
  {
    State(StoresAfter(c, s, l),
          if l.Crash? then s.crashed + {l.n} else if l.Restart? then s.crashed - {l.n} else s.crashed,
          AliveAfter(c, s, l),
          OpsAfter(c, s, l),
          if l.Probe? then Pinged(l.n, l.up) else if l.Record? then Resting else s.beat,
          s.log + [EventOf(c, s, l)])
  }

  // ---------- Environments and runs ----------

  /** Which failures a run may contain.  Under `CrashStop` an exchange or a ping fails only on a crashed node and
      nobody restarts; a node may have performed the request before it crashed.  Under `Anything` nodes restart empty,
      exchanges break for no reason, replies get lost, and healthy nodes fail their pings. */
  datatype Faults = NoFaults | CrashStop | Anything

  /** Which requests on one key may be in progress together. */
  datatype Overlap = Unrestricted | OneWriter | WriterAlone

  predicate FaultAllowed(f: Faults, c: Config, s: State, l: Label)
    requires Enabled(c, s, l)
  {
    match f
    case Anything => true
    case CrashStop =>
      !l.Restart? && (l.Break? ==> Target(c, s.ops[l.t]) in s.crashed) && (l.Probe? && !l.up ==> l.n in s.crashed)
    case NoFaults => !l.Crash? && !l.Restart? && !l.Break? && (l.Probe? ==> l.up)
  }

  predicate Busy(s: State, k: Key) {
    exists t :: t in s.ops && !s.ops[t].req.Ping? && s.ops[t].req.key == k
  }

  predicate BeingWritten(s: State, k: Key) {
    exists t :: t in s.ops && IsWrite(s.ops[t].req) && s.ops[t].req.key == k
  }

  predicate OverlapAllowed(v: Overlap, s: State, l: Label)
    requires l.Begin? ==> !l.req.Ping?
  {
    l.Begin? ==>
      match v
      case Unrestricted => true
      case OneWriter => IsWrite(l.req) ==> !BeingWritten(s, l.req.key)
      case WriterAlone => !BeingWritten(s, l.req.key) && (IsWrite(l.req) ==> !Busy(s, l.req.key))
  }

  predicate Permitted(c: Config, f: Faults, v: Overlap, s: State, l: Label) {
    Enabled(c, s, l) && FaultAllowed(f, c, s, l) && OverlapAllowed(v, s, l)
  }

  /** The state after the steps `ls`. */
  function After(c: Config, ls: seq<Label>): State {
    if ls == [] then Init(c)
    else
      var s := After(c, ls[..|ls| - 1]);
      if Enabled(c, s, ls[|ls| - 1]) then Step(c, s, ls[|ls| - 1]) else s
  }

  predicate Run(c: Config, f: Faults, v: Overlap, ls: seq<Label>) {
    ls == [] || (Run(c, f, v, ls[..|ls| - 1]) && Permitted(c, f, v, After(c, ls[..|ls| - 1]), ls[|ls| - 1]))
  }
}
