/** What one map answers, said without the map: every answer by the last earlier write of its key. */
module Answers {
  import opened KvSpec

  predicate WritesKey(r: Request, k: Key) {
    (r.Set? || r.Delete?) && r.key == k
  }

  /** Request `w` is the last write of `k` among the first `x`. */
  predicate LastWrite(rs: seq<Request>, x: nat, k: Key, w: nat)
    requires x <= |rs|
  {
    w < x && WritesKey(rs[w], k) && forall y :: w < y < x ==> !WritesKey(rs[y], k)
  }

  predicate Unwritten(rs: seq<Request>, x: nat, k: Key)
    requires x <= |rs|
  {
    forall y :: 0 <= y < x ==> !WritesKey(rs[y], k)
  }

  /** After the first `x` requests, `k` has the value `v`: the last write of `k` set it, or there was none and it was
      there from the start. */
  predicate Holds(from: Store, rs: seq<Request>, x: nat, k: Key, v: Value)
    requires x <= |rs|
  {
    || (exists w :: 0 <= w < x && LastWrite(rs, x, k, w) && rs[w] == Set(k, v))
    || (Unwritten(rs, x, k) && k in from && from[k] == v)
  }

  predicate HoldsSomething(from: Store, rs: seq<Request>, x: nat, k: Key)
    requires x <= |rs|
  {
    || (exists w :: 0 <= w < x && LastWrite(rs, x, k, w) && rs[w].Set?)
    || (Unwritten(rs, x, k) && k in from)
  }

  /** The right answer to request `x`. */
  ghost predicate AnswersAt(from: Store, rs: seq<Request>, x: nat, resp: Response)
    requires x < |rs|
  {
    match rs[x]
    case Set(_, _) => resp == Ok
    case Delete(k) => resp == if HoldsSomething(from, rs, x, k) then Deleted else NotFound
    case Get(k) => (resp == NotFound || resp.ValueIs?) && (forall v :: resp == ValueIs(v) <==> Holds(from, rs, x, k, v))
    case Ping => resp == Pong
  }

  /** Every request got the right answer. */
  ghost predicate LikeOneMap(from: Store, rs: seq<Request>, resps: seq<Response>) {
    |resps| == |rs| && forall x :: 0 <= x < |rs| ==> AnswersAt(from, rs, x, resps[x])
  }

  // ---------- The map that gives these answers ----------

  function MapOf(from: Store, rs: seq<Request>): Store {
    if rs == [] then from else Exec(MapOf(from, rs[..|rs| - 1]), rs[|rs| - 1]).0
  }

  lemma HoldsPrefix(from: Store, rs: seq<Request>, x: nat, k: Key)
    requires x <= |rs|
    ensures forall v :: Holds(from, rs, x, k, v) <==> Holds(from, rs[..x], x, k, v)
    ensures HoldsSomething(from, rs, x, k) <==> HoldsSomething(from, rs[..x], x, k)
  {
    var pre := rs[..x];
    assert forall w :: 0 <= w < x ==> pre[w] == rs[w];
    assert forall w :: 0 <= w < x ==> (LastWrite(rs, x, k, w) <==> LastWrite(pre, x, k, w));
    assert Unwritten(rs, x, k) <==> Unwritten(pre, x, k);
  }

  /** One more request changes what its own key holds, if it writes. */
  lemma HoldsNext(from: Store, rs: seq<Request>, r: Request, k: Key, v: Value)
    ensures Holds(from, rs + [r], |rs| + 1, k, v)
            <==> if WritesKey(r, k) then r == Set(k, v) else Holds(from, rs, |rs|, k, v)
  {
    var all, n := rs + [r], |rs|;
    assert all[n] == r && forall w :: 0 <= w < n ==> all[w] == rs[w];
    if WritesKey(r, k) {
      assert LastWrite(all, n + 1, k, n);
    } else {
      assert forall w :: 0 <= w < n ==> (LastWrite(all, n + 1, k, w) <==> LastWrite(rs, n, k, w));
      assert Unwritten(all, n + 1, k) <==> Unwritten(rs, n, k);
    }
  }

  lemma {:induction false} MapHolds(from: Store, rs: seq<Request>, k: Key, v: Value)
    ensures Lookup(MapOf(from, rs), k) == Some(v) <==> Holds(from, rs, |rs|, k, v)
  {
    if rs != [] {
      var pre, r := rs[..|rs| - 1], rs[|rs| - 1];
      assert rs == pre + [r];
      MapHolds(from, pre, k, v);
      HoldsNext(from, pre, r, k, v);
    }
  }

  lemma SomethingIsSomeValue(from: Store, rs: seq<Request>, x: nat, k: Key)
    requires x <= |rs|
    ensures HoldsSomething(from, rs, x, k) <==> exists v :: Holds(from, rs, x, k, v)
  {
    if HoldsSomething(from, rs, x, k) {
      if w :| 0 <= w < x && LastWrite(rs, x, k, w) && rs[w].Set? {
        assert Holds(from, rs, x, k, rs[w].value);
      } else {
        assert Holds(from, rs, x, k, from[k]);
      }
    }
  }

  lemma AnswerOfMap(from: Store, rs: seq<Request>, x: nat, resp: Response)
    requires x < |rs|
    ensures resp == Exec(MapOf(from, rs[..x]), rs[x]).1 <==> AnswersAt(from, rs, x, resp)
  {
    if rs[x].Get? || rs[x].Delete? {
      var k, m := rs[x].key, MapOf(from, rs[..x]);
      HoldsPrefix(from, rs, x, k);
      forall v ensures Lookup(m, k) == Some(v) <==> Holds(from, rs, x, k, v) { MapHolds(from, rs[..x], k, v); }
      SomethingIsSomeValue(from, rs, x, k);
      assert k in m ==> Lookup(m, k) == Some(m[k]) && Holds(from, rs, x, k, m[k]);
      assert resp.ValueIs? ==> (Lookup(m, k) == Some(resp.value) <==> Holds(from, rs, x, k, resp.value));
    }
  }

  // ---------- Replays ----------

  lemma {:induction false} MapOfFront(from: Store, r: Request, rs: seq<Request>)
    ensures MapOf(from, [r] + rs) == MapOf(Exec(from, r).0, rs)
    decreases |rs|
  {
    if rs == [] {
      assert [r] + rs == [r] && [r][..0] == [];
    } else {
      MapOfFront(from, r, rs[..|rs| - 1]);
      assert ([r] + rs)[..|rs|] == [r] + rs[..|rs| - 1];
    }
  }

  lemma {:induction false} ReplayIsMap(from: Store, rs: seq<Request>, x: nat)
    requires x < |rs|
    ensures Replay(from, rs).1[x] == Exec(MapOf(from, rs[..x]), rs[x]).1
    decreases |rs|
  {
    if x > 0 {
      ReplayIsMap(Exec(from, rs[0]).0, rs[1..], x - 1);
      MapOfFront(from, rs[0], rs[1..][..x - 1]);
      assert [rs[0]] + rs[1..][..x - 1] == rs[..x];
    }
  }

  lemma {:induction false} ReplayEnds(from: Store, rs: seq<Request>)
    ensures Replay(from, rs).0 == MapOf(from, rs)
    decreases |rs|
  {
    if rs != [] {
      ReplayEnds(Exec(from, rs[0]).0, rs[1..]);
      MapOfFront(from, rs[0], rs[1..]);
      assert [rs[0]] + rs[1..] == rs;
    }
  }

  /** Requests run one after another: their answers are the right ones and no others are, and what is stored at the end
      is what the last writes left. */
  lemma ReplayAnswers(from: Store, rs: seq<Request>, resps: seq<Response>)
    ensures resps == Replay(from, rs).1 <==> LikeOneMap(from, rs, resps)
    ensures forall k, v :: Lookup(Replay(from, rs).0, k) == Some(v) <==> Holds(from, rs, |rs|, k, v)
  {
    forall x | 0 <= x < |rs| && |resps| == |rs|
      ensures resps[x] == Replay(from, rs).1[x] <==> AnswersAt(from, rs, x, resps[x])
    {
      ReplayIsMap(from, rs, x);
      AnswerOfMap(from, rs, x, resps[x]);
    }
    ReplayEnds(from, rs);
    forall k, v ensures Lookup(Replay(from, rs).0, k) == Some(v) <==> Holds(from, rs, |rs|, k, v) {
      MapHolds(from, rs, k, v);
    }
  }
}
