/** Going round a circle of positions, and reading a sequence for its first occurrences. */
module Clockwise {
  import opened KvSpec

  /** Starting at `p` and going clockwise, `a` is met before `b`. */
  predicate Closer(p: nat, a: nat, b: nat) {
    if (a >= p) == (b >= p) then a < b else a >= p
  }

  predicate InOrder(p: nat, s: seq<nat>) {
    forall i, j :: 0 <= i < j < |s| ==> Closer(p, s[i], s[j])
  }

  /** `s` is one lap: all positions of `ps`, in the order they are met from `p`. */
  ghost predicate IsLap(ps: set<nat>, p: nat, s: seq<nat>) {
    InOrder(p, s) && forall x :: x in s <==> x in ps
  }

  /** The position met first from `p`. */
  ghost function Nearest(ps: set<nat>, p: nat): (x: nat)
    requires ps != {}
    ensures x in ps && forall y :: y in ps && y != x ==> Closer(p, x, y)
  {
    var y :| y in ps;
    var rest := ps - {y};
    assert forall z :: z in ps <==> z == y || z in rest;
    if rest == {} then y
    else
      var x := Nearest(rest, p);
      if Closer(p, y, x) then y else x
  }

  /** The position met first is the smallest one at or after `p`, and the smallest of all when there is none. */
  lemma NearestIs(ps: set<nat>, p: nat, q: nat)
    requires ps != {}
    ensures Nearest(ps, p) == q <==>
            q in ps && if exists x :: x in ps && x >= p then q >= p && (forall x :: x in ps && x >= p ==> q <= x)
                       else forall x :: x in ps ==> q <= x
  {
    var n := Nearest(ps, p);
    assert forall y :: y in ps && y != n ==> Closer(p, n, y);
  }

  ghost function Lap(ps: set<nat>, p: nat): (s: seq<nat>)
    ensures IsLap(ps, p, s) && |s| == |ps|
  {
    if ps == {} then []
    else
      var x := Nearest(ps, p);
      var rest := Lap(ps - {x}, p);
      assert forall y :: y in [x] + rest <==> y == x || y in rest;
      [x] + rest
  }

  lemma {:induction false} LapIsUnique(ps: set<nat>, p: nat, s: seq<nat>, t: seq<nat>)
    requires IsLap(ps, p, s) && IsLap(ps, p, t)
    ensures s == t
    decreases |s|
  {
    EmptyLap(ps, p, s);
    EmptyLap(ps, p, t);
    if s != [] {
      SameHead(ps, p, s, t);
      TailIsLap(ps, p, s);
      TailIsLap(ps, p, t);
      LapIsUnique(ps - {s[0]}, p, s[1..], t[1..]);
      assert s == [s[0]] + s[1..] && t == [t[0]] + t[1..];
    }
  }

  lemma EmptyLap(ps: set<nat>, p: nat, s: seq<nat>)
    requires IsLap(ps, p, s)
    ensures s == [] <==> ps == {}
  {
    if s != [] {
      assert s[0] in ps;
    }
  }

  lemma SameHead(ps: set<nat>, p: nat, s: seq<nat>, t: seq<nat>)
    requires IsLap(ps, p, s) && IsLap(ps, p, t) && s != [] && t != []
    ensures s[0] == t[0]
  {
    assert s[0] in ps && t[0] in ps;
    var i :| 0 <= i < |s| && s[i] == t[0];
    var j :| 0 <= j < |t| && t[j] == s[0];
  }

  lemma TailIsLap(ps: set<nat>, p: nat, s: seq<nat>)
    requires IsLap(ps, p, s) && s != []
    ensures IsLap(ps - {s[0]}, p, s[1..])
  {
    assert s == [s[0]] + s[1..];
    assert forall i :: 0 <= i < |s| - 1 ==> s[1..][i] == s[i + 1];
  }

  // ---------- Filtering ----------

  function Filter<T>(s: seq<T>, keep: T -> bool): seq<T> {
    if s == [] then [] else if keep(s[0]) then [s[0]] + Filter(s[1..], keep) else Filter(s[1..], keep)
  }

  lemma {:induction false} FilterMembers<T>(s: seq<T>, keep: T -> bool)
    ensures forall x :: x in Filter(s, keep) <==> x in s && keep(x)
  {
    if s != [] {
      assert s == [s[0]] + s[1..];
      FilterMembers(s[1..], keep);
    }
  }

  lemma {:induction false} FilterInOrder(p: nat, s: seq<nat>, keep: nat -> bool)
    requires InOrder(p, s)
    ensures InOrder(p, Filter(s, keep))
  {
    if s != [] {
      assert forall i :: 0 <= i < |s| - 1 ==> s[1..][i] == s[i + 1];
      var f := Filter(s[1..], keep);
      FilterInOrder(p, s[1..], keep);
      FilterMembers(s[1..], keep);
      assert forall j :: 0 <= j < |f| ==> f[j] in s[1..];
    }
  }

  /** Taking positions off the circle takes them out of the lap and changes nothing else. */
  lemma LapOfSubset(ps: set<nat>, qs: set<nat>, p: nat)
    requires qs <= ps
    ensures Lap(qs, p) == Filter(Lap(ps, p), x => x in qs)
  {
    var keep := (x: nat) => x in qs;
    FilterInOrder(p, Lap(ps, p), keep);
    FilterMembers(Lap(ps, p), keep);
    LapIsUnique(qs, p, Lap(qs, p), Filter(Lap(ps, p), keep));
  }

  // ---------- First occurrences ----------

  function Firsts<T(==)>(s: seq<T>): (d: seq<T>) {
    if s == [] then []
    else
      var d := Firsts(s[..|s| - 1]);
      if s[|s| - 1] in d then d else d + [s[|s| - 1]]
  }

  lemma FirstsAppend<T>(s: seq<T>, x: T)
    ensures Firsts(s + [x]) == if x in Firsts(s) then Firsts(s) else Firsts(s) + [x]
  {
    assert (s + [x])[..|s|] == s;
  }

  lemma {:induction false} FirstsFacts<T>(s: seq<T>)
    ensures NoRepeats(Firsts(s)) && forall x :: x in Firsts(s) <==> x in s
    ensures s != [] ==> Firsts(s) != [] && Firsts(s)[0] == s[0]
  {
    if s != [] {
      var t := s[..|s| - 1];
      FirstsFacts(t);
      assert s == t + [s[|s| - 1]];
    }
  }

  /** `x` occurs before `y` does. */
  predicate OccursBefore<T(==)>(s: seq<T>, x: T, y: T) {
    exists a :: 0 <= a < |s| && s[a] == x && forall b :: 0 <= b < |s| && s[b] == y ==> a < b
  }

  lemma OccursBeforeLonger<T>(s: seq<T>, z: T, x: T, y: T)
    requires OccursBefore(s, x, y)
    ensures OccursBefore(s + [z], x, y)
  {
    var a :| 0 <= a < |s| && s[a] == x && forall b :: 0 <= b < |s| && s[b] == y ==> a < b;
    assert (s + [z])[a] == x;
  }

  lemma {:induction false} FirstsOccur<T>(s: seq<T>, i: nat) returns (a: nat)
    requires i < |Firsts(s)|
    ensures a < |s| && s[a] == Firsts(s)[i]
    decreases |s|
  {
    var t := s[..|s| - 1];
    if i < |Firsts(t)| { a := FirstsOccur(t, i); } else { a := |t|; }
  }

  /** First occurrences are listed in their order. */
  lemma {:induction false} FirstsInOrder<T>(s: seq<T>, i: nat, y: T)
    requires i < |Firsts(s)| && y in s && y !in Firsts(s)[..i + 1]
    ensures OccursBefore(s, Firsts(s)[i], y)
    decreases |s|
  {
    var t, z := s[..|s| - 1], s[|s| - 1];
    assert s == t + [z];
    FirstsFacts(t);
    FirstsFacts(s);
    if i == |Firsts(t)| { assert false; }
    assert Firsts(s)[..i + 1] == Firsts(t)[..i + 1] && Firsts(s)[i] == Firsts(t)[i];
    if y in t {
      FirstsInOrder(t, i, y);
      OccursBeforeLonger(t, z, Firsts(t)[i], y);
    } else {
      var a := FirstsOccur(t, i);
      assert s[a] == t[a] && forall b :: 0 <= b < |t| ==> s[b] == t[b];
    }
  }

  lemma {:induction false} FirstsGrow<T>(s: seq<T>, n: nat)
    requires n <= |s|
    ensures Firsts(s[..n]) <= Firsts(s)
  {
    if n < |s| {
      FirstsGrow(s[..|s| - 1], n);
      assert s[..|s| - 1][..n] == s[..n];
    } else {
      assert s[..n] == s;
    }
  }

  /** The sequence with every occurrence of `x` deleted. */
  function Without<T(==)>(s: seq<T>, x: T): seq<T> {
    if s == [] then [] else if s[0] == x then Without(s[1..], x) else [s[0]] + Without(s[1..], x)
  }

  lemma {:induction false} WithoutMembers<T>(s: seq<T>, x: T)
    ensures forall y :: y in Without(s, x) <==> y in s && y != x
  {
    if s != [] {
      assert s == [s[0]] + s[1..];
      WithoutMembers(s[1..], x);
    }
  }

  lemma {:induction false} WithoutAppend<T>(s: seq<T>, y: T, x: T)
    ensures Without(s + [y], x) == if y == x then Without(s, x) else Without(s, x) + [y]
  {
    if s == [] {
      assert s + [y] == [y];
    } else {
      assert (s + [y])[1..] == s[1..] + [y];
      WithoutAppend(s[1..], y, x);
    }
  }

  /** Deleting a value before or after reading for first occurrences is the same. */
  lemma {:induction false} FirstsOfWithout<T>(s: seq<T>, x: T)
    ensures Firsts(Without(s, x)) == Without(Firsts(s), x)
  {
    if s != [] {
      var t, y := s[..|s| - 1], s[|s| - 1];
      assert s == t + [y];
      FirstsOfWithout(t, x);
      WithoutAppend(t, y, x);
      WithoutAppend(Firsts(t), y, x);
      WithoutMembers(Firsts(t), x);
      if y != x {
        assert (Without(t, x) + [y])[..|Without(t, x)|] == Without(t, x);
      }
    }
  }
}
