/** Handing connections from the accept thread to the reactors: a pending list behind a mutex, and a self-pipe whose
    byte wakes the reactor's `poll`.  The pipe is bounded, so a wake byte may be dropped.  Connections are named by
    the order in which they were accepted. */
module Handoff {

  /** How much one read takes from the wakeup pipe. */
  const DRAIN_READ: nat := 256

  /** Where a reactor's loop stands: in `poll`, emptying the pipe, about to swap out the pending list, taking the
      batch into its poll set, or servicing clients. */
  datatype Phase = Polling | Draining | Swapping | Adopting | Servicing

  datatype Reactor = Reactor(phase: Phase, pipe: nat, pending: seq<nat>, batch: seq<nat>, polled: set<nat>,
                             closed: set<nat>, handed: nat)

  /** The accept thread: in `accept`, holding a new connection, or about to write the wake byte. */
  datatype Acceptor = Accepting | Holding | Waking

  /** `next` is the reactor served next, `pushed` how many connections have been put on pending lists. */
  datatype State = State(rs: seq<Reactor>, acceptor: Acceptor, next: nat, pushed: nat)

  datatype Label =
    | Accept | Push | Wake
    | Poll(r: nat, woken: bool) | Drain(r: nat) | Swap(r: nat) | Adopt(r: nat) | Close(r: nat, c: nat) | Rest(r: nat)

  function Init(n: nat): State {
    State(seq(n, i => Reactor(Polling, 0, [], [], {}, {}, 0)), Accepting, 0, 0)
  }

  /** `poll` returns when the pipe holds a byte or a client is ready, and reports whether it was the pipe. */
  predicate Enabled(s: State, l: Label) {
    match l
    case Accept => s.acceptor == Accepting
    case Push => s.acceptor == Holding && s.next < |s.rs|
    case Wake => s.acceptor == Waking && s.next < |s.rs|
    case Poll(r, woken) =>
      r < |s.rs| && s.rs[r].phase == Polling && woken == (s.rs[r].pipe > 0) && (woken || s.rs[r].polled != {})
    case Drain(r) => r < |s.rs| && s.rs[r].phase == Draining
    case Swap(r) => r < |s.rs| && s.rs[r].phase == Swapping
    case Adopt(r) => r < |s.rs| && s.rs[r].phase == Adopting
    case Close(r, c) => r < |s.rs| && s.rs[r].phase == Servicing && c in s.rs[r].polled
    case Rest(r) => r < |s.rs| && s.rs[r].phase == Servicing
  }

  /** The reactor a step touches. */
  function Touched(s: State, l: Label): nat {
    match l
    case Accept => |s.rs|
    case Push => s.next
    case Wake => s.next
    case Poll(r, _) => r
    case Drain(r) => r
    case Swap(r) => r
    case Adopt(r) => r
    case Close(r, _) => r
    case Rest(r) => r
  }

  /** One step of, or on, a reactor.  A full pipe drops the wake byte. */
  function ReactorAfter(cap: nat, x: Reactor, l: Label, c: nat): Reactor {
    match l
    case Accept => x
    case Push => x.(pending := x.pending + [c], handed := x.handed + 1)
    case Wake => if x.pipe < cap then x.(pipe := x.pipe + 1) else x
    case Poll(_, woken) => x.(phase := if woken then Draining else Servicing)
    case Drain(_) =>
      if x.pipe == 0 then x.(phase := Swapping)
      else x.(pipe := if x.pipe < DRAIN_READ then 0 else x.pipe - DRAIN_READ)
    case Swap(_) => x.(phase := Adopting, batch := x.pending, pending := [])
    case Adopt(_) =>
      if x.batch == [] then x.(phase := Servicing)
      else x.(batch := x.batch[1..], polled := x.polled + {x.batch[0]})
    case Close(_, d) => x.(polled := x.polled - {d}, closed := x.closed + {d})
    case Rest(_) => x.(phase := Polling)
  }

  function Step(cap: nat, s: State, l: Label): (s': State)
    requires Enabled(s, l)
    ensures |s'.rs| == |s.rs|
  {
    if l.Accept? then s.(acceptor := Holding)
    else
      var r := Touched(s, l);
      var rs := s.rs[r := ReactorAfter(cap, s.rs[r], l, s.pushed)];
      match l
      case Push => State(rs, Waking, s.next, s.pushed + 1)
      case Wake => State(rs, Accepting, (s.next + 1) % |rs|, s.pushed)
      case _ => s.(rs := rs)
  }

  function After(cap: nat, n: nat, ls: seq<Label>): (s: State)
    ensures |s.rs| == n
  {
    if ls == [] then Init(n)
    else
      var s := After(cap, n, ls[..|ls| - 1]);
      if Enabled(s, ls[|ls| - 1]) then Step(cap, s, ls[|ls| - 1]) else s
  }

  predicate Run(cap: nat, n: nat, ls: seq<Label>) {
    ls == [] || (Run(cap, n, ls[..|ls| - 1]) && Enabled(After(cap, n, ls[..|ls| - 1]), ls[|ls| - 1]))
  }

  // ---------- No lost wakeup ----------

  /** Outside the stretch between draining and swapping, pending connections have a byte in the pipe or an accept
      thread about to write one. */
  predicate Announced(x: Reactor, waking: bool) {
    x.phase != Draining && x.phase != Swapping && x.pending != [] ==> x.pipe > 0 || waking
  }

  predicate AllAnnounced(s: State) {
    forall r :: 0 <= r < |s.rs| ==> Announced(s.rs[r], s.acceptor == Waking && s.next == r)
  }

  lemma AnnouncedStep(cap: nat, s: State, l: Label)
    requires cap > 0 && AllAnnounced(s) && Enabled(s, l)
    ensures AllAnnounced(Step(cap, s, l))
  {
  }

  /** A full pipe drops the wake byte: no pipe ever holds more than it can. */
  lemma {:induction false} PipesAreBounded(cap: nat, n: nat, ls: seq<Label>, r: nat)
    requires Run(cap, n, ls) && r < n
    ensures After(cap, n, ls).rs[r].pipe <= cap
  {
    if ls != [] { PipesAreBounded(cap, n, ls[..|ls| - 1], r); }
  }

  // ---------- Single ownership and fairness ----------

  predicate Increasing(s: seq<nat>) {
    forall i, j :: 0 <= i < j < |s| ==> s[i] < s[j]
  }

  /** Of the first `pushed` connections, reactor `r` of `n` has exactly every n-th, each in one place, and those waiting
      in the order they were accepted. */
  ghost predicate Owned(queue: seq<nat>, polled: set<nat>, closed: set<nat>, r: nat, n: nat, pushed: nat)
    requires n > 0
  {
    && (forall c: nat :: c in queue || c in polled || c in closed <==> c < pushed && c % n == r)
    && Increasing(queue)
    && (forall c :: c in queue ==> c !in polled && c !in closed)
    && polled !! closed
  }

  ghost predicate Owns(x: Reactor, r: nat, n: nat, pushed: nat)
    requires n > 0
  {
    Owned(x.batch + x.pending, x.polled, x.closed, r, n, pushed) && (x.phase != Adopting ==> x.batch == [])
  }

  /** How many of the first `pushed` connections go to reactor `r`. */
  function Share(pushed: nat, r: nat, n: nat): nat
    requires n > 0
  {
    if pushed == 0 then 0 else Share(pushed - 1, r, n) + if (pushed - 1) % n == r then 1 else 0
  }

  ghost predicate Fair(s: State) {
    && |s.rs| > 0
    && s.next == (if s.acceptor == Waking then s.pushed - 1 else s.pushed) % |s.rs|
    && (s.acceptor == Waking ==> s.pushed > 0)
    && forall r :: 0 <= r < |s.rs| ==> Owns(s.rs[r], r, |s.rs|, s.pushed) && s.rs[r].handed == Share(s.pushed, r, |s.rs|)
  }

  lemma AdoptFirst(q: seq<nat>, polled: set<nat>, closed: set<nat>, r: nat, n: nat, pushed: nat)
    requires n > 0 && q != [] && Owned(q, polled, closed, r, n, pushed)
    ensures Owned(q[1..], polled + {q[0]}, closed, r, n, pushed)
  {
    forall c: nat ensures c in q <==> c == q[0] || c in q[1..] {
      assert q == [q[0]] + q[1..];
    }
    assert q[0] !in q[1..];
  }

  lemma OwnsStep(cap: nat, x: Reactor, l: Label, r: nat, n: nat, pushed: nat)
    requires n > 0 && Owns(x, r, n, pushed) && !l.Push? && !l.Accept?
    requires l.Swap? ==> x.batch == []
    requires l.Close? ==> l.c in x.polled
    requires x.phase == Adopting ==> l.Adopt? || l.Wake?
    ensures Owns(ReactorAfter(cap, x, l, pushed), r, n, pushed)
  {
    var y := ReactorAfter(cap, x, l, pushed);
    if l.Adopt? && x.batch != [] {
      AdoptFirst(x.batch + x.pending, x.polled, x.closed, r, n, pushed);
      assert (x.batch + x.pending)[1..] == y.batch + y.pending;
    } else {
      assert y.batch + y.pending == x.batch + x.pending;
    }
  }

  lemma PushOwned(q: seq<nat>, polled: set<nat>, closed: set<nat>, r: nat, n: nat, pushed: nat)
    requires n > 0 && Owned(q, polled, closed, r, n, pushed)
    ensures pushed % n == r ==> Owned(q + [pushed], polled, closed, r, n, pushed + 1)
    ensures pushed % n != r ==> Owned(q, polled, closed, r, n, pushed + 1)
  {
    forall i | 0 <= i < |q| ensures q[i] < pushed { assert q[i] in q; }
  }

  lemma PushOwns(cap: nat, x: Reactor, r: nat, n: nat, pushed: nat)
    requires n > 0 && Owns(x, r, n, pushed)
    ensures pushed % n == r ==> Owns(ReactorAfter(cap, x, Push, pushed), r, n, pushed + 1)
    ensures pushed % n != r ==> Owns(x, r, n, pushed + 1)
  {
    PushOwned(x.batch + x.pending, x.polled, x.closed, r, n, pushed);
    assert x.batch + (x.pending + [pushed]) == x.batch + x.pending + [pushed];
  }

  lemma Advance(k: nat, n: nat)
    requires n > 0
    ensures if k % n + 1 < n then (k + 1) % n == k % n + 1 && (k + 1) / n == k / n
            else (k + 1) % n == 0 && (k + 1) / n == k / n + 1
  {
    var q, r := k / n, k % n;
    assert k + 1 == q * n + (r + 1);
    if r + 1 < n {
      Turn(k + 1, n, q, r + 1);
    } else {
      assert k + 1 == (q + 1) * n + 0;
      Turn(k + 1, n, q + 1, 0);
    }
  }

  lemma NextInTurn(k: nat, n: nat)
    requires n > 0
    ensures (k % n + 1) % n == (k + 1) % n
  {
    Advance(k, n);
    Turn(k % n + 1, n, if k % n + 1 < n then 0 else 1, if k % n + 1 < n then k % n + 1 else 0);
  }

  lemma Turn(k: nat, n: nat, q: nat, r: nat)
    requires n > 0 && k == q * n + r && r < n
    ensures k % n == r && k / n == q
  {
    var d := k / n - q;
    assert k == (k / n) * n + k % n;
    assert d * n == r - k % n;
    Multiples(d, n);
  }

  lemma Multiples(d: int, n: nat)
    ensures d >= 1 ==> d * n >= n
    ensures d <= -1 ==> d * n + n <= 0
  {
    if d >= 1 {
      assert d * n == n + (d - 1) * n;
    } else if d <= -1 {
      assert d * n + n == (d + 1) * n;
    }
  }

  lemma NextStays(cap: nat, s: State, l: Label)
    requires Enabled(s, l) && |s.rs| > 0 && (s.acceptor == Waking ==> s.pushed > 0)
    requires s.next == (if s.acceptor == Waking then s.pushed - 1 else s.pushed) % |s.rs|
    ensures var s' := Step(cap, s, l);
            && s'.next == (if s'.acceptor == Waking then s'.pushed - 1 else s'.pushed) % |s'.rs|
            && (s'.acceptor == Waking ==> s'.pushed > 0)
  {
    if l.Wake? { NextInTurn(s.pushed - 1, |s.rs|); }
  }

  lemma FairStep(cap: nat, s: State, l: Label)
    requires Fair(s) && Enabled(s, l)
    ensures Fair(Step(cap, s, l))
  {
    var s', n := Step(cap, s, l), |s.rs|;
    NextStays(cap, s, l);
    forall r | 0 <= r < n ensures Owns(s'.rs[r], r, n, s'.pushed) && s'.rs[r].handed == Share(s'.pushed, r, n) {
      ReactorFairStep(cap, s, l, r);
    }
  }

  lemma ReactorFairStep(cap: nat, s: State, l: Label, r: nat)
    requires Fair(s) && Enabled(s, l) && r < |s.rs|
    ensures var s', n := Step(cap, s, l), |s.rs|;
            Owns(s'.rs[r], r, n, s'.pushed) && s'.rs[r].handed == Share(s'.pushed, r, n)
  {
    var x, n := s.rs[r], |s.rs|;
    assert Owns(x, r, n, s.pushed);
    if l.Push? {
      PushOwns(cap, x, r, n, s.pushed);
    } else if !l.Accept? && r == Touched(s, l) {
      OwnsStep(cap, x, l, r, n, s.pushed);
    }
  }

  lemma {:induction false} HandoffRun(cap: nat, n: nat, ls: seq<Label>)
    requires cap > 0 && n > 0 && Run(cap, n, ls)
    ensures Fair(After(cap, n, ls)) && AllAnnounced(After(cap, n, ls))
  {
    if ls != [] {
      HandoffRun(cap, n, ls[..|ls| - 1]);
      FairStep(cap, After(cap, n, ls[..|ls| - 1]), ls[|ls| - 1]);
      AnnouncedStep(cap, After(cap, n, ls[..|ls| - 1]), ls[|ls| - 1]);
    }
  }

  lemma {:induction false} ShareIs(p: nat, r: nat, n: nat)
    requires r < n
    ensures Share(p, r, n) == p / n + if r < p % n then 1 else 0
  {
    if p == 0 {
      Turn(0, n, 0, 0);
    } else {
      ShareIs(p - 1, r, n);
      Advance(p - 1, n);
    }
  }

  // ---------- Main results ----------

  /** A reactor in `poll` with pending connections is woken: `poll` can return at once, or as soon as the accept thread
      has written the byte it is about to write, even when the pipe is so full that the byte is dropped. */
  lemma NoLostWakeup(cap: nat, n: nat, ls: seq<Label>, r: nat)
    requires cap > 0 && Run(cap, n, ls) && r < n
    requires After(cap, n, ls).rs[r].phase == Polling && After(cap, n, ls).rs[r].pending != []
    ensures var s := After(cap, n, ls);
            Enabled(s, Poll(r, true)) || (Enabled(s, Wake) && s.next == r && Enabled(Step(cap, s, Wake), Poll(r, true)))
  {
    HandoffRun(cap, n, ls);
    assert Announced(After(cap, n, ls).rs[r], After(cap, n, ls).acceptor == Waking && After(cap, n, ls).next == r);
  }

  /** The places a connection can be. */
  datatype Place = InPending(r: nat) | InBatch(r: nat) | InPollSet(r: nat) | WasClosed(r: nat)

  predicate Lies(s: State, c: nat, p: Place) {
    p.r < |s.rs| &&
    match p
    case InPending(r) => c in s.rs[r].pending
    case InBatch(r) => c in s.rs[r].batch
    case InPollSet(r) => c in s.rs[r].polled
    case WasClosed(r) => c in s.rs[r].closed
  }

  /** In every reachable state each handed-off connection lies in exactly one place, with the reactor its number names,
      and only handed-off connections lie anywhere. */
  lemma SingleOwnership(cap: nat, n: nat, ls: seq<Label>, c: nat)
    requires cap > 0 && n > 0 && Run(cap, n, ls)
    ensures var s := After(cap, n, ls);
            && (c < s.pushed <==> exists p :: Lies(s, c, p))
            && (forall p, q :: Lies(s, c, p) && Lies(s, c, q) ==> p == q && p.r == c % n)
  {
    var s := After(cap, n, ls);
    HandoffRun(cap, n, ls);
    forall p | Lies(s, c, p) ensures c < s.pushed && p.r == c % n && p == PlaceOf(s.rs[c % n], c % n, c) {
      LiesOnce(s, n, c, p);
    }
    if c < s.pushed {
      assert Owns(s.rs[c % n], c % n, n, s.pushed);
      assert Lies(s, c, PlaceOf(s.rs[c % n], c % n, c));
    }
  }

  function PlaceOf(x: Reactor, r: nat, c: nat): Place {
    if c in x.pending then InPending(r) else if c in x.batch then InBatch(r)
    else if c in x.polled then InPollSet(r) else WasClosed(r)
  }

  lemma LiesOnce(s: State, n: nat, c: nat, p: Place)
    requires Fair(s) && n == |s.rs| && Lies(s, c, p)
    ensures c < s.pushed && p.r == c % n && p == PlaceOf(s.rs[p.r], p.r, c)
  {
    var x := s.rs[p.r];
    assert Owns(x, p.r, n, s.pushed);
    assert c in x.batch + x.pending <==> c in x.batch || c in x.pending;
    Apart(x.batch, x.pending);
  }

  lemma Apart(a: seq<nat>, b: seq<nat>)
    requires Increasing(a + b)
    ensures forall c :: c in a ==> c !in b
  {
    forall i, j | 0 <= i < |a| && 0 <= j < |b| ensures a[i] < b[j] {
      assert (a + b)[i] == a[i] && (a + b)[|a| + j] == b[j];
    }
  }

  /** Round robin: no reactor has been handed more than one connection more than another. */
  lemma HandoffsAreEven(cap: nat, n: nat, ls: seq<Label>, q: nat, r: nat)
    requires cap > 0 && Run(cap, n, ls) && q < n && r < n
    ensures var s := After(cap, n, ls); -1 <= s.rs[q].handed - s.rs[r].handed <= 1
  {
    HandoffRun(cap, n, ls);
    var s := After(cap, n, ls);
    ShareIs(s.pushed, q, n);
    ShareIs(s.pushed, r, n);
  }

  // ---------- Waiting connections are reached ----------

  predicate Path(cap: nat, s: State, ls: seq<Label>)
    decreases ls
  {
    ls == [] || (Enabled(s, ls[0]) && Path(cap, Step(cap, s, ls[0]), ls[1..]))
  }

  function EndOf(cap: nat, s: State, ls: seq<Label>): (s': State)
    requires Path(cap, s, ls)
    ensures |s'.rs| == |s.rs|
    decreases ls
  {
    if ls == [] then s else EndOf(cap, Step(cap, s, ls[0]), ls[1..])
  }

  /** What reactor `r` does next if no client is ready; at an empty pipe the accept thread writes its byte first. */
  function NextOf(x: Reactor, r: nat): Label {
    match x.phase
    case Polling => if x.pipe == 0 then Wake else Poll(r, true)
    case Draining => Drain(r)
    case Swapping => Swap(r)
    case Adopting => Adopt(r)
    case Servicing => Rest(r)
  }

  function Rank(p: Phase): nat {
    match p
    case Adopting => 4
    case Servicing => 3
    case Polling => 2
    case Draining => 1
    case Swapping => 0
  }

  function Work(x: Reactor): nat {
    match x.phase
    case Adopting => |x.batch|
    case Polling => if x.pipe == 0 then 1 else 0
    case Draining => x.pipe
    case _ => 0
  }

  /** From any reachable state, steps of the reactor alone, after at most the wake byte the accept thread is about to
      write, bring a waiting connection into the poll set. */
  lemma Reached(cap: nat, s: State, r: nat, c: nat) returns (ls: seq<Label>)
    requires cap > 0 && Fair(s) && AllAnnounced(s) && r < |s.rs| && (c in s.rs[r].batch || c in s.rs[r].pending)
    ensures Path(cap, s, ls) && c in EndOf(cap, s, ls).rs[r].polled
    ensures forall i :: 0 <= i < |ls| ==> !ls[i].Accept? && !ls[i].Push? && !ls[i].Close?
    decreases if c in s.rs[r].pending then 1 else 0, Rank(s.rs[r].phase), Work(s.rs[r])
  {
    var x := s.rs[r];
    assert Owns(x, r, |s.rs|, s.pushed) && Announced(x, s.acceptor == Waking && s.next == r);
    var l := NextOf(x, r);
    var s' := Step(cap, s, l);
    if c in s'.rs[r].polled {
      ls := [l];
    } else {
      FairStep(cap, s, l);
      AnnouncedStep(cap, s, l);
      var rest := Reached(cap, s', r, c);
      ls := [l] + rest;
    }
  }

  lemma Regroup(ls: seq<Label>, more: seq<Label>)
    requires more != []
    ensures ls + [more[0]] + more[1..] == ls + more
  {
  }

  lemma ContinueOne(cap: nat, n: nat, ls: seq<Label>, l: Label)
    requires Run(cap, n, ls) && Enabled(After(cap, n, ls), l)
    ensures Run(cap, n, ls + [l]) && After(cap, n, ls + [l]) == Step(cap, After(cap, n, ls), l)
  {
    assert (ls + [l])[..|ls|] == ls;
  }

  lemma {:induction false} Continue(cap: nat, n: nat, ls: seq<Label>, more: seq<Label>)
    requires Run(cap, n, ls) && Path(cap, After(cap, n, ls), more)
    ensures Run(cap, n, ls + more) && After(cap, n, ls + more) == EndOf(cap, After(cap, n, ls), more)
    decreases more
  {
    if more == [] {
      assert ls + more == ls;
    } else {
      ContinueOne(cap, n, ls, more[0]);
      Continue(cap, n, ls + [more[0]], more[1..]);
      Regroup(ls, more);
    }
  }

  /** Every run can be continued, without another connection being accepted and without any client's help, so that a
      given handed-off connection that was not closed is in its reactor's poll set. */
  lemma EveryConnectionIsReached(cap: nat, n: nat, ls: seq<Label>, c: nat) returns (more: seq<Label>)
    requires cap > 0 && n > 0 && Run(cap, n, ls)
    requires c < After(cap, n, ls).pushed && c !in After(cap, n, ls).rs[c % n].closed
    ensures Run(cap, n, ls + more) && c in After(cap, n, ls + more).rs[c % n].polled
    ensures forall i :: 0 <= i < |more| ==> !more[i].Accept? && !more[i].Push? && !more[i].Close?
  {
    var s := After(cap, n, ls);
    HandoffRun(cap, n, ls);
    assert Owns(s.rs[c % n], c % n, n, s.pushed);
    if c in s.rs[c % n].polled {
      more := [];
      assert ls + more == ls;
    } else {
      more := Reached(cap, s, c % n, c);
      Continue(cap, n, ls, more);
    }
  }

  // ---------- In every continuation ----------

  /** A step of reactor `r` itself. */
  predicate IsOwn(l: Label, r: nat) {
    !l.Accept? && !l.Push? && !l.Wake? && l.r == r
  }

  predicate IsHandoff(l: Label) {
    l.Push? || l.Wake?
  }

  function OwnSteps(ls: seq<Label>, r: nat): nat {
    if ls == [] then 0 else OwnSteps(ls[..|ls| - 1], r) + if IsOwn(ls[|ls| - 1], r) then 1 else 0
  }

  function HandoffSteps(ls: seq<Label>): nat {
    if ls == [] then 0 else HandoffSteps(ls[..|ls| - 1]) + if IsHandoff(ls[|ls| - 1]) then 1 else 0
  }

  /** How many reads of 256 bytes empty a pipe. */
  function Reads(pipe: nat): nat {
    (pipe + 255) / 256
  }

  /** How many of its own steps a woken reactor is away from servicing clients, if nobody hands it more. */
  function Distance(x: Reactor): nat {
    match x.phase
    case Draining => Reads(x.pipe) + |x.pending| + 3
    case Swapping => |x.pending| + 2
    case Adopting => |x.batch| + 1
    case _ => 0
  }

  predicate InReach(x: Reactor, c: nat) {
    c in x.polled || c in x.closed
  }

  predicate Underway(x: Reactor, c: nat) {
    ((x.phase == Draining || x.phase == Swapping) && c in x.pending) || (x.phase == Adopting && c in x.batch)
  }

  /** Connection `c` was reached, or the reactor is on its way to it, with at most `budget` steps in all. */
  predicate Nearing(x: Reactor, c: nat, own: nat, budget: nat) {
    InReach(x, c) || (Underway(x, c) && own + Distance(x) <= budget)
  }

  lemma NearingStep(cap: nat, s: State, l: Label, r: nat, c: nat, own: nat, budget: nat)
    requires Enabled(s, l) && r < |s.rs| && Nearing(s.rs[r], c, own, budget)
    ensures Nearing(Step(cap, s, l).rs[r], c, own + (if IsOwn(l, r) then 1 else 0), budget + if IsHandoff(l) then 1 else 0)
  {
    var x := s.rs[r];
    if l == Adopt(r) && x.batch != [] {
      assert x.batch == [x.batch[0]] + x.batch[1..];
    }
  }

  lemma RunSoFar(cap: nat, n: nat, ls: seq<Label>, l: Label)
    requires Run(cap, n, ls + [l])
    ensures Run(cap, n, ls) && Enabled(After(cap, n, ls), l) && After(cap, n, ls + [l]) == Step(cap, After(cap, n, ls), l)
  {
    assert (ls + [l])[..|ls|] == ls;
  }

  lemma {:induction false} NearingRun(cap: nat, n: nat, ls: seq<Label>, more: seq<Label>, r: nat, c: nat, budget: nat)
    requires Run(cap, n, ls + more) && r < n && Nearing(After(cap, n, ls).rs[r], c, 0, budget)
    ensures Nearing(After(cap, n, ls + more).rs[r], c, OwnSteps(more, r), budget + HandoffSteps(more))
    decreases |more|
  {
    if more == [] {
      assert ls + more == ls;
    } else {
      var pre, l := more[..|more| - 1], more[|more| - 1];
      assert ls + more == (ls + pre) + [l];
      RunSoFar(cap, n, ls + pre, l);
      NearingRun(cap, n, ls, pre, r, c, budget);
      NearingStep(cap, After(cap, n, ls + pre), l, r, c, OwnSteps(pre, r), budget + HandoffSteps(pre));
    }
  }

  lemma {:induction false} RunPrefix(cap: nat, n: nat, ls: seq<Label>, more: seq<Label>)
    requires Run(cap, n, ls + more)
    ensures Run(cap, n, ls)
    decreases |more|
  {
    if more == [] {
      assert ls + more == ls;
    } else {
      assert ls + more == (ls + more[..|more| - 1]) + [more[|more| - 1]];
      RunSoFar(cap, n, ls + more[..|more| - 1], more[|more| - 1]);
      RunPrefix(cap, n, ls, more[..|more| - 1]);
    }
  }

  /** Once the reactor's `poll` returns with no wake byte about to be written, every handed-off connection is reached in
      every continuation: before clients are serviced again, and by the time the reactor has taken more steps than it
      takes to empty its pipe in reads of 256 bytes, plus pending connections, later handoffs and three. */
  lemma EveryContinuationReaches(cap: nat, n: nat, ls: seq<Label>, woken: bool, more: seq<Label>, c: nat)
    requires cap > 0 && n > 0 && Run(cap, n, ls + [Poll(c % n, woken)] + more)
    requires var s := After(cap, n, ls); c < s.pushed && !(s.acceptor == Waking && s.next == c % n)
    ensures var x, x' := After(cap, n, ls).rs[c % n], After(cap, n, ls + [Poll(c % n, woken)] + more).rs[c % n];
            x'.phase == Servicing || OwnSteps(more, c % n) > Reads(x.pipe) + |x.pending| + 3 + HandoffSteps(more)
            ==> InReach(x', c)
  {
    var r, s := c % n, After(cap, n, ls);
    RunPrefix(cap, n, ls + [Poll(r, woken)], more);
    RunSoFar(cap, n, ls, Poll(r, woken));
    HandoffRun(cap, n, ls);
    assert Owns(s.rs[r], r, n, s.pushed) && Announced(s.rs[r], false);
    NearingRun(cap, n, ls + [Poll(r, woken)], more, r, c, Reads(s.rs[r].pipe) + |s.rs[r].pending| + 3);
  }

  // ---------- Wake-ups have a cause ----------

  /** How many wake bytes were meant for reactor `r`. */
  function WakesTo(cap: nat, n: nat, ls: seq<Label>, r: nat): nat {
    if ls == [] then 0
    else
      var pre := ls[..|ls| - 1];
      WakesTo(cap, n, pre, r) + if ls[|ls| - 1].Wake? && After(cap, n, pre).next == r then 1 else 0
  }

  lemma OneMoreWake(cap: nat, n: nat, ls: seq<Label>, l: Label, r: nat)
    requires Run(cap, n, ls + [l]) && r < n
    ensures After(cap, n, ls + [l]).rs[r].pipe
            <= After(cap, n, ls).rs[r].pipe + WakesTo(cap, n, ls + [l], r) - WakesTo(cap, n, ls, r)
  {
    RunSoFar(cap, n, ls, l);
    assert (ls + [l])[..|ls|] == ls;
  }

  lemma {:induction false} PipeFills(cap: nat, n: nat, ls: seq<Label>, more: seq<Label>, r: nat)
    requires Run(cap, n, ls + more) && r < n
    ensures After(cap, n, ls + more).rs[r].pipe
            <= After(cap, n, ls).rs[r].pipe + WakesTo(cap, n, ls + more, r) - WakesTo(cap, n, ls, r)
    decreases |more|
  {
    if more == [] {
      assert ls + more == ls;
    } else {
      var pre, l := more[..|more| - 1], more[|more| - 1];
      assert ls + more == (ls + pre) + [l];
      RunSoFar(cap, n, ls + pre, l);
      PipeFills(cap, n, ls, pre, r);
      OneMoreWake(cap, n, ls + pre, l, r);
    }
  }

  /** Draining ends with an empty pipe: from then on the pipe holds no more bytes than were meant for the reactor since,
      so `poll` reports it only if some were. */
  lemma WakeupsHaveACause(cap: nat, n: nat, ls: seq<Label>, more: seq<Label>, r: nat)
    requires r < n && Run(cap, n, ls + [Drain(r)] + more) && After(cap, n, ls + [Drain(r)]).rs[r].phase == Swapping
    ensures var all := ls + [Drain(r)] + more;
            && After(cap, n, all).rs[r].pipe <= WakesTo(cap, n, all, r) - WakesTo(cap, n, ls, r)
            && (Enabled(After(cap, n, all), Poll(r, true)) ==> WakesTo(cap, n, all, r) > WakesTo(cap, n, ls, r))
  {
    RunPrefix(cap, n, ls + [Drain(r)], more);
    RunSoFar(cap, n, ls, Drain(r));
    assert (ls + [Drain(r)])[..|ls|] == ls;
    PipeFills(cap, n, ls + [Drain(r)], more, r);
  }
}
