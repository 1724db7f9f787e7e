/** Placement: whatever fails, data lives only where the ring puts it. */
module Placement {
  import opened KvSpec
  import opened Failover

  ghost predicate Placed(c: Config, s: State) {
    forall n, k :: k in StoreOf(s, n) ==> n in c.prefs(k)
  }

  lemma PlacedStep(c: Config, s: State, l: Label)
    requires Placed(c, s) && Enabled(c, s, l)
    ensures Placed(c, Step(c, s, l))
  {
    forall n, k | k in StoreOf(Step(c, s, l), n) ensures n in c.prefs(k) {
      if k !in StoreOf(s, n) {
        assert n == Target(c, s.ops[l.t]) && k == s.ops[l.t].req.key;
      }
    }
  }

  lemma {:induction false} PlacedRun(c: Config, v: Overlap, ls: seq<Label>)
    requires Run(c, Anything, v, ls)
    ensures Placed(c, After(c, ls))
  {
    if ls != [] {
      PlacedRun(c, v, ls[..|ls| - 1]);
      PlacedStep(c, After(c, ls[..|ls| - 1]), ls[|ls| - 1]);
    }
  }

  function Holders(s: State, k: Key): set<Node> {
    set n | n in s.stores && k in s.stores[n]
  }

  /** In every reachable state of every run a node holds a key only if it is in the key's preference list, so no
      more nodes hold it than the list is long. */
  lemma HoldersArePreferred(c: Config, v: Overlap, ls: seq<Label>, k: Key)
    requires Run(c, Anything, v, ls)
    ensures var h := Holders(After(c, ls), k); (forall n :: n in h ==> n in c.prefs(k)) && |h| <= |c.prefs(k)|
  {
    PlacedRun(c, v, ls);
    assert forall n :: n in Holders(After(c, ls), k) ==> k in StoreOf(After(c, ls), n);
    FewElements(Holders(After(c, ls), k), c.prefs(k));
  }
}
