/** The lock-striped store at the granularity of its locks and its counter: any number of threads, each of them
    acquiring the lock of its key's shard, touching the shard, adjusting the separate counter, and unlocking. */
module StripeLocks {
  import opened KvSpec
  import opened History
  import opened Linearizability
  import opened Answers

  const SHARDS: nat := 16

  /** Which shard a key lives in. */
  type Home = Key -> nat

  ghost predicate ValidHome(home: Home) {
    forall k :: home(k) < SHARDS
  }

  datatype Phase = Waiting | Locked | Counting | Unlocking | Returning

  /** A call in progress.  `delta` is the pending change of the counter while the phase is `Counting`. */
  datatype Task = Task(id: nat, req: Request, phase: Phase, delta: int, resp: Option<Response>)

  /** A shared mutex. */
  datatype Lock = Lock(readers: set<nat>, writer: Option<nat>)

  datatype State = State(shards: seq<Store>, locks: seq<Lock>, counter: int, tasks: map<nat, Task>, log: Log)

  datatype Label =
    | Call(t: nat, req: Request) | Acquire(t: nat) | Touch(t: nat) | Count(t: nat) | Release(t: nat) | Return(t: nat)

  function Init(): State {
    State(seq(SHARDS, i => map[]), seq(SHARDS, i => Lock({}, None)), 0, map[], [])
  }

  predicate InPhase(s: State, t: nat, p: Phase) {
    t in s.tasks && s.tasks[t].phase == p && !s.tasks[t].req.Ping?
  }

  predicate Sized(s: State) {
    |s.shards| == SHARDS && |s.locks| == SHARDS
  }

  predicate Enabled(home: Home, s: State, l: Label)
    requires Sized(s)
  {
    match l
    case Call(t, req) => t !in s.tasks && !req.Ping?
    case Acquire(t) => InPhase(s, t, Waiting) && var i := home(s.tasks[t].req.key);
                       i < SHARDS && s.locks[i].writer.None? && (IsWrite(s.tasks[t].req) ==> s.locks[i].readers == {})
    case Touch(t) => InPhase(s, t, Locked) && home(s.tasks[t].req.key) < SHARDS
    case Count(t) => InPhase(s, t, Counting)
    case Release(t) => InPhase(s, t, Unlocking) && home(s.tasks[t].req.key) < SHARDS
    case Return(t) => InPhase(s, t, Returning) && s.tasks[t].resp.Some?
  }

  /** What a request does to the number of keys in a shard. */
  function Growth(m: Store, r: Request): int {
    match r
    case Set(k, _) => if k in m then 0 else 1
    case Delete(k) => if k in m then -1 else 0
    case _ => 0
  }

  function TaskAfter(home: Home, s: State, l: Label): Task
    requires Sized(s) && Enabled(home, s, l) && !l.Return?
  {
    match l
    case Call(_, req) => Task(|s.log|, req, Waiting, 0, None)
    case Acquire(t) => s.tasks[t].(phase := Locked)
    case Touch(t) =>
      var o := s.tasks[t];
      var m := s.shards[home(o.req.key)];
      var d := Growth(m, o.req);
      o.(phase := if d == 0 then Unlocking else Counting, delta := d, resp := Some(Exec(m, o.req).1))
    case Count(t) => s.tasks[t].(phase := Unlocking)
    case Release(t) => s.tasks[t].(phase := Returning)
  }

  function TasksAfter(home: Home, s: State, l: Label): map<nat, Task>
    requires Sized(s) && Enabled(home, s, l)
  {
    if l.Return? then s.tasks - {l.t} else s.tasks[l.t := TaskAfter(home, s, l)]
  }

  function ShardsAfter(home: Home, s: State, l: Label): seq<Store>
    requires Sized(s) && Enabled(home, s, l)
  {
    if l.Touch? then
      var i := home(s.tasks[l.t].req.key);
      s.shards[i := Exec(s.shards[i], s.tasks[l.t].req).0]
    else s.shards
  }

  function LocksAfter(home: Home, s: State, l: Label): seq<Lock>
    requires Sized(s) && Enabled(home, s, l)
  {
    if l.Acquire? || l.Release? then
      var i := home(s.tasks[l.t].req.key);
      var k := s.locks[i];
      s.locks[i := if IsWrite(s.tasks[l.t].req) then k.(writer := if l.Acquire? then Some(l.t) else None)
                   else k.(readers := if l.Acquire? then k.readers + {l.t} else k.readers - {l.t})]
    else s.locks
  }

  function LogAfter(home: Home, s: State, l: Label): Log
    requires Sized(s) && Enabled(home, s, l)
  {
    match l
    case Call(_, req) => s.log + [Invoked(req)]
    case Touch(t) => s.log + [Served(s.tasks[t].id, "", true, Exec(s.shards[home(s.tasks[t].req.key)], s.tasks[t].req).1)]
    case Return(t) => s.log + [Responded(s.tasks[t].id, s.tasks[t].resp.value)]
    case _ => s.log
  }

  function Step(home: Home, s: State, l: Label): State
    requires Sized(s) && Enabled(home, s, l)
  {
    State(ShardsAfter(home, s, l), LocksAfter(home, s, l), if l.Count? then s.counter + s.tasks[l.t].delta else s.counter,
          TasksAfter(home, s, l), LogAfter(home, s, l))
  }

  function After(home: Home, ls: seq<Label>): (s: State)
    ensures Sized(s)
  {
    if ls == [] then Init()
    else
      var s := After(home, ls[..|ls| - 1]);
      if Enabled(home, s, ls[|ls| - 1]) then Step(home, s, ls[|ls| - 1]) else s
  }

  predicate Run(home: Home, ls: seq<Label>) {
    ls == [] || (Run(home, ls[..|ls| - 1]) && Enabled(home, After(home, ls[..|ls| - 1]), ls[|ls| - 1]))
  }

  // ---------- Locks: a shard's writer is alone in it ----------

  predicate Inside(o: Task) {
    o.phase == Locked || o.phase == Counting || o.phase == Unlocking
  }

  predicate In(home: Home, tasks: map<nat, Task>, i: nat, t: nat) {
    t in tasks && !tasks[t].req.Ping? && home(tasks[t].req.key) == i && Inside(tasks[t])
  }

  ghost predicate LockOk(home: Home, k: Lock, tasks: map<nat, Task>, i: nat) {
    && (forall t: nat :: t in k.readers <==> In(home, tasks, i, t) && !IsWrite(tasks[t].req))
    && (forall t: nat :: k.writer == Some(t) <==> In(home, tasks, i, t) && IsWrite(tasks[t].req))
    && (k.writer.Some? ==> k.readers == {})
  }

  ghost predicate Locking(home: Home, s: State) {
    && Sized(s)
    && (forall t :: t in s.tasks ==> !s.tasks[t].req.Ping?)
    && (forall i :: 0 <= i < SHARDS ==> LockOk(home, s.locks[i], s.tasks, i))
  }

  lemma LockOkStep(home: Home, s: State, l: Label, i: nat)
    requires Locking(home, s) && Enabled(home, s, l) && i < SHARDS
    ensures LockOk(home, LocksAfter(home, s, l)[i], TasksAfter(home, s, l), i)
  {
    assert LockOk(home, s.locks[i], s.tasks, i);
    var tasks' := TasksAfter(home, s, l);
    forall t: nat | t != l.t ensures In(home, tasks', i, t) <==> In(home, s.tasks, i, t) {
    }
  }

  lemma LockingStep(home: Home, s: State, l: Label)
    requires Locking(home, s) && Enabled(home, s, l)
    ensures Locking(home, Step(home, s, l))
  {
    forall i | 0 <= i < SHARDS ensures LockOk(home, Step(home, s, l).locks[i], Step(home, s, l).tasks, i) {
      LockOkStep(home, s, l, i);
    }
  }

  /** While the counter is owed a change, only the owing thread is inside the shard. */
  lemma WriterIsAlone(home: Home, s: State, t: nat, u: nat)
    requires Locking(home, s) && t in s.tasks && u in s.tasks && t != u && Inside(s.tasks[t]) && Inside(s.tasks[u])
    requires IsWrite(s.tasks[t].req) && home(s.tasks[t].req.key) < SHARDS
    ensures home(s.tasks[u].req.key) != home(s.tasks[t].req.key)
  {
    var i := home(s.tasks[t].req.key);
    assert LockOk(home, s.locks[i], s.tasks, i) && In(home, s.tasks, i, t);
    if In(home, s.tasks, i, u) { assert false; }
  }

  // ---------- The counter ----------

  predicate DeltaOk(home: Home, s: State, o: Task) {
    o.phase == Counting ==>
      && IsWrite(o.req) && home(o.req.key) < |s.shards|
      && (o.delta == 1 || o.delta == -1) && (o.delta == 1 ==> o.req.key in s.shards[home(o.req.key)])
  }

  ghost predicate DeltasOk(home: Home, s: State) {
    forall t :: t in s.tasks ==> DeltaOk(home, s, s.tasks[t])
  }

  lemma DeltasOkStep(home: Home, s: State, l: Label)
    requires ValidHome(home) && Locking(home, s) && DeltasOk(home, s) && Enabled(home, s, l)
    ensures DeltasOk(home, Step(home, s, l))
  {
    var s' := Step(home, s, l);
    forall t | t in s'.tasks ensures DeltaOk(home, s', s'.tasks[t]) {
      if t != l.t {
        assert s'.tasks[t] == s.tasks[t] && DeltaOk(home, s, s.tasks[t]);
        if l.Touch? && s.tasks[t].phase == Counting { WriterIsAlone(home, s, t, l.t); }
      }
    }
  }

  /** What the counter is still owed for a shard. */
  function Owed(k: Lock, tasks: map<nat, Task>): int {
    if k.writer.Some? && k.writer.value in tasks && tasks[k.writer.value].phase == Counting
    then tasks[k.writer.value].delta else 0
  }

  function TotalOwed(s: State, n: nat): int
    requires n <= |s.locks|
  {
    if n == 0 then 0 else TotalOwed(s, n - 1) + Owed(s.locks[n - 1], s.tasks)
  }

  function TotalKeys(shards: seq<Store>, n: nat): nat
    requires n <= |shards|
  {
    if n == 0 then 0 else TotalKeys(shards, n - 1) + |shards[n - 1]|
  }

  lemma GrowthIsGrowth(m: Store, r: Request)
    ensures |Exec(m, r).0| == |m| + Growth(m, r)
  {
    if r.Delete? && r.key in m {
      assert (m - {r.key}).Keys == m.Keys - {r.key};
    } else if r.Set? {
      assert m[r.key := r.value].Keys == m.Keys + {r.key};
    }
  }

  /** Touching a shard and owing the counter go together. */
  lemma LevelStep(home: Home, s: State, l: Label, i: nat)
    requires ValidHome(home) && Locking(home, s) && DeltasOk(home, s) && Enabled(home, s, l) && i < SHARDS
    ensures var s' := Step(home, s, l);
            |s'.shards[i]| - Owed(s'.locks[i], s'.tasks) ==
            |s.shards[i]| - Owed(s.locks[i], s.tasks)
            + if l.Count? && home(s.tasks[l.t].req.key) == i then s.tasks[l.t].delta else 0
  {
    var s' := Step(home, s, l);
    assert LockOk(home, s.locks[i], s.tasks, i);
    LockOkStep(home, s, l, i);
    if l.Touch? { GrowthIsGrowth(s.shards[home(s.tasks[l.t].req.key)], s.tasks[l.t].req); }
    if l.t in s.tasks { assert DeltaOk(home, s, s.tasks[l.t]); }
  }

  lemma {:induction false} LevelsStep(home: Home, s: State, l: Label, n: nat)
    requires ValidHome(home) && Locking(home, s) && DeltasOk(home, s) && Enabled(home, s, l) && n <= SHARDS
    ensures var s' := Step(home, s, l);
            TotalKeys(s'.shards, n) - TotalOwed(s', n) ==
            TotalKeys(s.shards, n) - TotalOwed(s, n)
            + if l.Count? && home(s.tasks[l.t].req.key) < n then s.tasks[l.t].delta else 0
  {
    if n > 0 {
      LevelsStep(home, s, l, n - 1);
      LevelStep(home, s, l, n - 1);
    }
  }

  /** The counter is the number of keys, less what it is owed. */
  predicate Tallied(s: State) {
    Sized(s) && s.counter == TotalKeys(s.shards, SHARDS) - TotalOwed(s, SHARDS)
  }

  lemma {:induction false} OwedIsSmall(home: Home, s: State, n: nat)
    requires Locking(home, s) && DeltasOk(home, s) && n <= SHARDS
    ensures 0 <= TotalOwed(s, n) + n <= 2 * n && TotalOwed(s, n) <= TotalKeys(s.shards, n)
    ensures (forall t :: t in s.tasks ==> s.tasks[t].phase != Counting) ==> TotalOwed(s, n) == 0
  {
    if n > 0 {
      OwedIsSmall(home, s, n - 1);
      var k := s.locks[n - 1];
      assert LockOk(home, k, s.tasks, n - 1);
      if k.writer.Some? {
        assert In(home, s.tasks, n - 1, k.writer.value) && DeltaOk(home, s, s.tasks[k.writer.value]);
      }
    }
  }

  // ---------- The shards together are one map ----------

  ghost predicate Partitioned(home: Home, shards: seq<Store>, m: Store) {
    && |shards| == SHARDS
    && (forall i, k :: 0 <= i < SHARDS && k in shards[i] ==> home(k) == i)
    && (forall k :: home(k) < SHARDS ==> Lookup(shards[home(k)], k) == Lookup(m, k))
  }

  lemma PartitionedStep(home: Home, shards: seq<Store>, m: Store, r: Request)
    requires ValidHome(home) && Partitioned(home, shards, m) && !r.Ping?
    ensures var i := home(r.key);
            && Exec(shards[i], r).1 == Exec(m, r).1
            && Partitioned(home, shards[i := Exec(shards[i], r).0], Exec(m, r).0)
  {
    ExecIsLocal(shards[home(r.key)], m, r);
  }

  function KeysBelow(home: Home, m: Store, n: nat): set<Key> {
    set k | k in m && home(k) < n
  }

  lemma DisjointUnion(a: set<Key>, b: set<Key>)
    requires a !! b
    ensures |a + b| == |a| + |b|
  {
  }

  lemma Layer(home: Home, shards: seq<Store>, m: Store, n: nat)
    requires Partitioned(home, shards, m) && n < SHARDS
    ensures |KeysBelow(home, m, n + 1)| == |KeysBelow(home, m, n)| + |shards[n]|
  {
    forall k | home(k) == n ensures k in m <==> k in shards[n] {
      assert Lookup(shards[home(k)], k) == Lookup(m, k);
    }
    assert forall k :: k in shards[n] ==> home(k) == n;
    assert KeysBelow(home, m, n + 1) == KeysBelow(home, m, n) + shards[n].Keys;
    DisjointUnion(KeysBelow(home, m, n), shards[n].Keys);
  }

  lemma {:induction false} KeysAddUp(home: Home, shards: seq<Store>, m: Store, n: nat)
    requires Partitioned(home, shards, m) && n <= SHARDS
    ensures |KeysBelow(home, m, n)| == TotalKeys(shards, n)
  {
    if n == 0 {
      assert KeysBelow(home, m, 0) == {};
    } else {
      KeysAddUp(home, shards, m, n - 1);
      Layer(home, shards, m, n - 1);
    }
  }

  lemma TotalIsOneMap(home: Home, shards: seq<Store>, m: Store)
    requires ValidHome(home) && Partitioned(home, shards, m)
    ensures TotalKeys(shards, SHARDS) == |m|
  {
    KeysAddUp(home, shards, m, SHARDS);
    assert KeysBelow(home, m, SHARDS) == m.Keys;
  }

  // ---------- What callers see ----------

  predicate Recorded(log: Log, o: Task) {
    && o.id < |log| && log[o.id] == Invoked(o.req) && !o.req.Ping?
    && (o.resp.None? <==> o.phase == Waiting || o.phase == Locked)
    && (o.resp.None? ==> forall p :: 0 <= p < |log| ==> !FirstServe(log[p], o.id))
    && (o.resp.Some? ==> !o.resp.value.Error? && FirstServedWith(log, o.id, |log|, o.resp.value))
    && (forall j :: 0 <= j < |log| && log[j].Responded? ==> log[j].id != o.id)
  }

  predicate DistinctIds(tasks: map<nat, Task>) {
    forall t, u :: t in tasks && u in tasks && t != u ==> tasks[t].id != tasks[u].id
  }

  ghost predicate Answerable(log: Log) {
    LogShape(log) && Legal(log) && PointsAnswer(log)
  }

  predicate AllRecorded(log: Log, tasks: map<nat, Task>) {
    forall t :: t in tasks ==> Recorded(log, tasks[t])
  }

  ghost predicate Traced(s: State) {
    Answerable(s.log) && AllRecorded(s.log, s.tasks) && DistinctIds(s.tasks)
  }

  lemma RecordedGrows(log: Log, o: Task, e: Event)
    requires Recorded(log, o) && !FirstServe(e, o.id) && (e.Responded? ==> e.id != o.id)
    ensures Recorded(log + [e], o)
  {
    if o.resp.Some? { ServedWithGrows(log, e, o.id, |log|, o.resp.value); }
  }

  /** An event about nobody, or about task `t` alone, leaves the other tasks recorded. */
  lemma OthersRecorded(log: Log, tasks: map<nat, Task>, t: nat, e: Event)
    requires AllRecorded(log, tasks) && DistinctIds(tasks)
    requires e.Invoked? || (t in tasks && (e.Served? || e.Responded?) && e.id == tasks[t].id)
    ensures AllRecorded(log + [e], tasks - {t})
  {
    forall u | u in tasks && u != t ensures Recorded(log + [e], tasks[u]) {
      RecordedGrows(log, tasks[u], e);
    }
  }

  lemma OneRecorded(log: Log, tasks: map<nat, Task>, t: nat, o: Task)
    requires AllRecorded(log, tasks - {t}) && Recorded(log, o)
    ensures AllRecorded(log, tasks[t := o])
  {
    var others, all := tasks - {t}, tasks[t := o];
    forall u | u in all ensures Recorded(log, all[u]) {
      assert u != t ==> u in others && others[u] == all[u];
    }
  }

  lemma CallRecorded(log: Log, req: Request)
    requires LogShape(log) && !req.Ping?
    ensures Recorded(log + [Invoked(req)], Task(|log|, req, Waiting, 0, None))
  {
    assert forall p :: 0 <= p < |log| && log[p].Served? ==> Performed(log, p);
    assert forall j :: 0 <= j < |log| && log[j].Responded? ==> Accounted(log, j);
  }

  lemma CallIsTraced(home: Home, s: State, l: Label)
    requires Sized(s) && Traced(s) && Enabled(home, s, l) && l.Call?
    ensures Traced(Step(home, s, l))
  {
    var e := Invoked(l.req);
    LogShapeGrows(s.log, e);
    LegalGrows(s.log, e);
    PointsAnswerGrows(s.log, e);
    CallRecorded(s.log, l.req);
    OthersRecorded(s.log, s.tasks, l.t, e);
    OneRecorded(s.log + [e], s.tasks, l.t, TaskAfter(home, s, l));
    NewIdIsDistinct(s.log, s.tasks);
  }

  lemma NewIdIsDistinct(log: Log, tasks: map<nat, Task>)
    requires AllRecorded(log, tasks)
    ensures forall t :: t in tasks ==> tasks[t].id < |log|
  {
  }

  lemma AnswerGrows(log: Log, o: Task)
    requires Answerable(log) && Recorded(log, o) && o.resp.Some?
    ensures Answerable(log + [Responded(o.id, o.resp.value)])
  {
    var e := Responded(o.id, o.resp.value);
    ServedWithGrows(log, e, o.id, |log|, o.resp.value);
    assert (log + [e])[|log|] == e && FirstServedWith(log + [e], o.id, |log|, e.resp);
    assert ServedWith(log + [e], o.id, |log|, e.resp);
    LogShapeGrows(log, e);
    LegalGrows(log, e);
    PointsAnswerGrows(log, e);
  }

  lemma ReturnIsTraced(home: Home, s: State, l: Label)
    requires Sized(s) && Traced(s) && Enabled(home, s, l) && l.Return?
    ensures Traced(Step(home, s, l))
  {
    var o := s.tasks[l.t];
    AnswerGrows(s.log, o);
    OthersRecorded(s.log, s.tasks, l.t, Responded(o.id, o.resp.value));
  }

  lemma PerformGrows(log: Log, o: Task, resp: Response)
    requires Answerable(log) && Recorded(log, o) && o.resp.None? && resp == Exec(OneMap(log), o.req).1
    ensures Answerable(log + [Served(o.id, "", true, resp)])
    ensures FirstServedWith(log + [Served(o.id, "", true, resp)], o.id, |log| + 1, resp)
    ensures OneMap(log + [Served(o.id, "", true, resp)]) == Exec(OneMap(log), o.req).0
  {
    var e := Served(o.id, "", true, resp);
    assert (log + [e])[|log|] == e && (log + [e])[..|log|] == log;
    OneMapGrows(log, e);
    LogShapeGrows(log, e);
    LegalGrows(log, e);
    PointsAnswerGrows(log, e);
  }

  lemma TouchedRecorded(log: Log, o: Task, o': Task, resp: Response)
    requires Recorded(log, o) && o.resp.None? && !resp.Error? && o'.id == o.id && o'.req == o.req && o'.resp == Some(resp)
    requires o'.phase == Unlocking || o'.phase == Counting
    requires FirstServedWith(log + [Served(o.id, "", true, resp)], o.id, |log| + 1, resp)
    ensures Recorded(log + [Served(o.id, "", true, resp)], o')
  {
  }

  lemma TouchPartitions(home: Home, s: State, l: Label)
    requires ValidHome(home) && Sized(s) && Enabled(home, s, l) && l.Touch? && Answerable(s.log)
    requires Recorded(s.log, s.tasks[l.t]) && Partitioned(home, s.shards, OneMap(s.log))
    ensures var o := s.tasks[l.t]; var resp := Exec(s.shards[home(o.req.key)], o.req).1;
            && !resp.Error? && resp == Exec(OneMap(s.log), o.req).1
            && Partitioned(home, ShardsAfter(home, s, l), OneMap(s.log + [Served(o.id, "", true, resp)]))
  {
    var o := s.tasks[l.t];
    PartitionedStep(home, s.shards, OneMap(s.log), o.req);
    PerformGrows(s.log, o, Exec(OneMap(s.log), o.req).1);
  }

  lemma TouchIsTraced(home: Home, s: State, l: Label)
    requires Sized(s) && Traced(s) && Enabled(home, s, l) && l.Touch?
    requires var o := s.tasks[l.t]; var resp := Exec(s.shards[home(o.req.key)], o.req).1;
             !resp.Error? && resp == Exec(OneMap(s.log), o.req).1
    ensures Traced(Step(home, s, l))
  {
    var o := s.tasks[l.t];
    var resp := Exec(s.shards[home(o.req.key)], o.req).1;
    var e := Served(o.id, "", true, resp);
    PerformGrows(s.log, o, resp);
    TouchedRecorded(s.log, o, TaskAfter(home, s, l), resp);
    OthersRecorded(s.log, s.tasks, l.t, e);
    OneRecorded(s.log + [e], s.tasks, l.t, TaskAfter(home, s, l));
    SameIds(s.tasks, l.t, TaskAfter(home, s, l));
  }

  lemma SameIds(tasks: map<nat, Task>, t: nat, o: Task)
    requires DistinctIds(tasks) && t in tasks && o.id == tasks[t].id
    ensures DistinctIds(tasks[t := o])
  {
  }

  ghost predicate StripeInv(home: Home, s: State) {
    && Locking(home, s) && DeltasOk(home, s) && Tallied(s) && Traced(s) && Partitioned(home, s.shards, OneMap(s.log))
  }

  lemma TracedStep(home: Home, s: State, l: Label)
    requires ValidHome(home) && StripeInv(home, s) && Enabled(home, s, l)
    ensures Traced(Step(home, s, l)) && Partitioned(home, Step(home, s, l).shards, OneMap(Step(home, s, l).log))
  {
    if l.Touch? {
      TouchPartitions(home, s, l);
      TouchIsTraced(home, s, l);
    } else if l.Call? {
      CallIsTraced(home, s, l);
      OneMapGrows(s.log, Invoked(l.req));
    } else if l.Return? {
      ReturnIsTraced(home, s, l);
      OneMapGrows(s.log, Responded(s.tasks[l.t].id, s.tasks[l.t].resp.value));
    } else {
      QuietIsTraced(home, s, l);
    }
  }

  lemma QuietIsTraced(home: Home, s: State, l: Label)
    requires Sized(s) && Traced(s) && Enabled(home, s, l) && (l.Acquire? || l.Count? || l.Release?)
    ensures Traced(Step(home, s, l))
  {
    var o := TaskAfter(home, s, l);
    SameRecord(s.log, s.tasks[l.t], o);
    OneRecorded(s.log, s.tasks, l.t, o);
    SameIds(s.tasks, l.t, o);
  }

  lemma SameRecord(log: Log, o: Task, o': Task)
    requires Recorded(log, o) && o'.id == o.id && o'.req == o.req && o'.resp == o.resp
    requires o'.phase == Waiting || o'.phase == Locked <==> o.phase == Waiting || o.phase == Locked
    ensures Recorded(log, o')
  {
  }

  lemma {:induction false} StripeRun(home: Home, ls: seq<Label>)
    requires ValidHome(home) && Run(home, ls)
    ensures StripeInv(home, After(home, ls))
  {
    if ls == [] {
      InitOk(home);
    } else {
      var s, l := After(home, ls[..|ls| - 1]), ls[|ls| - 1];
      StripeRun(home, ls[..|ls| - 1]);
      LockingStep(home, s, l);
      DeltasOkStep(home, s, l);
      LevelsStep(home, s, l, SHARDS);
      TracedStep(home, s, l);
    }
  }

  lemma InitLocking(home: Home)
    ensures Locking(home, Init()) && DeltasOk(home, Init()) && Partitioned(home, Init().shards, map[])
  {
    var s := Init();
    assert forall i :: 0 <= i < SHARDS ==> LockOk(home, s.locks[i], s.tasks, i);
  }

  lemma InitOk(home: Home)
    requires ValidHome(home)
    ensures StripeInv(home, Init())
  {
    InitLocking(home);
    NothingYet(home, SHARDS);
  }

  lemma {:induction false} NothingYet(home: Home, n: nat)
    requires n <= SHARDS
    ensures TotalKeys(Init().shards, n) == 0 && TotalOwed(Init(), n) == 0
  {
    if n > 0 { NothingYet(home, n - 1); }
  }

  /** For every interleaving of threads: the calls are linearizable to one map, every answer being the one its key's
      last earlier write calls for; a key's shard holds what that map holds, which is what the last write of the key
      left; the counter is that map's size less the changes still owed, so it is never negative and never off by more
      than the number of shards, and it is exact when no thread is between a map change and its counter change. */
  lemma StripedStoreIsOneMap(home: Home, ls: seq<Label>)
    requires ValidHome(home) && Run(home, ls)
    ensures var s := After(home, ls);
            && Linearization(s.log, Order(s.log)) && MapAfter(Order(s.log)) == OneMap(s.log)
            && LikeOneMap(map[], Requests(Order(s.log)), Responses(Order(s.log)))
            && Partitioned(home, s.shards, OneMap(s.log))
            && (forall k, v :: Lookup(s.shards[home(k)], k) == Some(v)
                               <==> Holds(map[], Requests(Order(s.log)), |Order(s.log)|, k, v))
            && s.counter == |OneMap(s.log)| - TotalOwed(s, SHARDS) >= 0
            && -16 <= s.counter - |OneMap(s.log)| <= 16
            && ((forall t :: t in s.tasks ==> s.tasks[t].phase != Counting) ==> s.counter == |OneMap(s.log)|)
  {
    var s := After(home, ls);
    StripeRun(home, ls);
    LegalIsLinearizable(s.log);
    OrderIsOneMapHistory(s.log);
    HistoryAnswers(Order(s.log));
    TotalIsOneMap(home, s.shards, OneMap(s.log));
    OwedIsSmall(home, s, SHARDS);
  }

  lemma Extend(home: Home, ls: seq<Label>, l: Label)
    requires Run(home, ls) && Enabled(home, After(home, ls), l)
    ensures Run(home, ls + [l]) && After(home, ls + [l]) == Step(home, After(home, ls), l)
  {
    assert (ls + [l])[..|ls|] == ls;
  }

  lemma FirstSet(home: Home, k: Key, v: Value)
    requires ValidHome(home)
    ensures var s0 := Init();
            && Enabled(home, s0, Call(0, Set(k, v)))
            && var s1 := Step(home, s0, Call(0, Set(k, v)));
            && Enabled(home, s1, Acquire(0))
            && var s2 := Step(home, s1, Acquire(0));
            && Enabled(home, s2, Touch(0))
            && Step(home, s2, Touch(0)).counter == 0
            && Step(home, s2, Touch(0)).log == [Invoked(Set(k, v)), Served(0, "", true, Ok)]
  {
  }

  /** Between the map change and the counter change of a single writer, the counter is not the number of keys. */
  lemma SizeCanLag(home: Home, k: Key, v: Value) returns (ls: seq<Label>)
    requires ValidHome(home)
    ensures Run(home, ls) && After(home, ls).counter == 0 && OneMap(After(home, ls).log) == map[k := v]
  {
    ls := [];
    FirstSet(home, k, v);
    Extend(home, ls, Call(0, Set(k, v)));
    ls := ls + [Call(0, Set(k, v))];
    Extend(home, ls, Acquire(0));
    ls := ls + [Acquire(0)];
    Extend(home, ls, Touch(0));
    ls := ls + [Touch(0)];
    OneMapGrows([], Invoked(Set(k, v)));
    OneMapGrows([Invoked(Set(k, v))], Served(0, "", true, Ok));
    assert After(home, ls).log == [Invoked(Set(k, v))] + [Served(0, "", true, Ok)];
    assert [Invoked(Set(k, v))] == [] + [Invoked(Set(k, v))];
  }
}
