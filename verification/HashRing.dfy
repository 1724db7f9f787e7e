/** The consistent hash ring: positions, owners, the clockwise walk that builds preference lists, and what membership
    changes do to them.  The position hash is a parameter. */
module HashRing {
  import opened KvSpec
  import opened Clockwise

  type Ring = map<nat, Node>
  type Hash = string -> nat

  function VirtualNode(id: Node, i: nat): string {
    id + "#" + Decimal(i)
  }

  /** The first `n` virtual positions of a node. */
  function Positions(h: Hash, id: Node, n: nat): set<nat> {
    if n == 0 then {} else Positions(h, id, n - 1) + {h(VirtualNode(id, n - 1))}
  }

  /** Every position of `ps` now belongs to `id`, whoever had it. */
  function Claim(r: Ring, ps: set<nat>, id: Node): Ring {
    map q | q in r.Keys + ps :: if q in ps then id else r[q]
  }

  // ---------- Lookups ----------

  /** The node owning the first position at or after `p`, wrapping around. */
  ghost function Owner(r: Ring, p: nat): Node
    requires r != map[]
  {
    assert r.Keys != {};
    r[Nearest(r.Keys, p)]
  }

  ghost function OwnersOn(r: Ring, lap: seq<nat>): (s: seq<Node>)
    requires forall q :: q in lap ==> q in r
    ensures |s| == |lap| && forall i :: 0 <= i < |lap| ==> lap[i] in r && s[i] == r[lap[i]]
  {
    if lap == [] then []
    else
      assert lap[0] in lap && forall q :: q in lap[1..] ==> q in lap;
      [r[lap[0]]] + OwnersOn(r, lap[1..])
  }

  /** The owners met in one lap from `p`. */
  ghost function Owners(r: Ring, p: nat): seq<Node> {
    OwnersOn(r, Lap(r.Keys, p))
  }

  /** The distinct owners in the order they are met: the full preference list. */
  ghost function FullList(r: Ring, p: nat): seq<Node> {
    Firsts(Owners(r, p))
  }

  function Min(a: nat, b: nat): nat {
    if a < b then a else b
  }

  /** The replica preference list: the first `count` distinct owners clockwise, or all there are. */
  ghost function PreferenceList(r: Ring, p: nat, count: nat): seq<Node> {
    FullList(r, p)[..Min(count, |FullList(r, p)|)]
  }

  lemma OwnersOnAre(r: Ring, lap: seq<nat>)
    requires forall q :: q in lap <==> q in r.Keys
    ensures forall n :: n in OwnersOn(r, lap) <==> n in r.Values
  {
    var o := OwnersOn(r, lap);
    forall n | n in r.Values ensures n in o {
      var q :| q in r && r[q] == n;
      assert q in lap;
      var i :| 0 <= i < |lap| && lap[i] == q;
      assert o[i] == n;
    }
    forall n | n in o ensures n in r.Values {
      var i :| 0 <= i < |lap| && o[i] == n;
      assert lap[i] in r;
    }
  }

  lemma OwnersAre(r: Ring, p: nat)
    ensures forall n :: n in Owners(r, p) <==> n in r.Values
    ensures r != map[] ==> Owners(r, p) != [] && Owners(r, p)[0] == Owner(r, p)
  {
    OwnersOnAre(r, Lap(r.Keys, p));
    if r != map[] {
      assert r.Keys != {};
    }
  }

  lemma {:induction false} CountDistinct<T>(s: seq<T>, xs: set<T>)
    requires NoRepeats(s) && forall x :: x in s <==> x in xs
    ensures |s| == |xs|
  {
    if s == [] {
      assert xs == {};
    } else {
      var t, x := s[..|s| - 1], s[|s| - 1];
      assert s == t + [x];
      assert forall y :: y in t <==> y in xs - {x};
      CountDistinct(t, xs - {x});
    }
  }

  lemma FullListFacts(r: Ring, p: nat)
    ensures var l := FullList(r, p);
            && NoRepeats(l) && (forall n :: n in l <==> n in r.Values) && |l| == |r.Values|
            && (r != map[] ==> l != [] && l[0] == Owner(r, p))
  {
    FirstsFacts(Owners(r, p));
    OwnersAre(r, p);
    CountDistinct(FullList(r, p), r.Values);
  }

  /** What the preference list is: without repetition, made of owners, as long as asked if there are that many owners,
      beginning with the owner of the position, and a prefix of every longer one. */
  lemma PreferenceListFacts(r: Ring, p: nat, count: nat, more: nat)
    requires count <= more
    ensures var l := PreferenceList(r, p, count);
            && NoRepeats(l) && (forall n :: n in l ==> n in r.Values) && |l| == Min(count, |r.Values|)
            && (r != map[] && count > 0 ==> l != [] && l[0] == Owner(r, p))
            && l <= PreferenceList(r, p, more)
  {
    FullListFacts(r, p);
    PrefixFacts(FullList(r, p), count, more);
  }

  /** Going clockwise from `p`, a position of `a` is met before any of `b`. */
  ghost predicate MetBefore(r: Ring, p: nat, a: Node, b: Node) {
    exists q :: q in r && r[q] == a && forall q' :: q' in r && r[q'] == b ==> Closer(p, q, q')
  }

  /** The node at position `i` of the list is met before every owner that is not listed up to it. */
  ghost predicate AheadOfTheRest(r: Ring, p: nat, l: seq<Node>, i: nat)
    requires i < |l|
  {
    forall n :: n in r.Values && n !in l[..i + 1] ==> MetBefore(r, p, l[i], n)
  }

  /** `l` lists owners without repetition, as many as `count` or all there are, in the order in which they are met. */
  ghost predicate ListedAsMet(r: Ring, p: nat, count: nat, l: seq<Node>) {
    && NoRepeats(l) && (forall i :: 0 <= i < |l| ==> l[i] in r.Values) && |l| == Min(count, |r.Values|)
    && forall i :: 0 <= i < |l| ==> AheadOfTheRest(r, p, l, i)
  }

  lemma MetAsOccurs(r: Ring, p: nat, lap: seq<nat>, a: Node, b: Node)
    requires IsLap(r.Keys, p, lap) && OccursBefore(OwnersOn(r, lap), a, b)
    ensures MetBefore(r, p, a, b)
  {
    var o := OwnersOn(r, lap);
    var i :| 0 <= i < |o| && o[i] == a && forall j :: 0 <= j < |o| && o[j] == b ==> i < j;
    assert lap[i] in lap;
    forall q' | q' in r && r[q'] == b ensures Closer(p, lap[i], q') {
      assert q' in lap;
      var j :| 0 <= j < |lap| && lap[j] == q';
      assert o[j] == b;
    }
  }

  lemma NotBothWays(r: Ring, p: nat, a: Node, b: Node)
    ensures !MetBefore(r, p, a, b) || !MetBefore(r, p, b, a)
  {
  }

  lemma NotYetListed<T>(l: seq<T>, n: nat, b: T)
    requires NoRepeats(l) && n < |l| && b != l[n]
    ensures l[n] !in l[..n] && (b !in l[..n] ==> b !in l[..n + 1])
  {
    assert l[..n + 1] == l[..n] + [l[n]];
  }

  lemma NextIsSame(r: Ring, p: nat, l: seq<Node>, l': seq<Node>, n: nat)
    requires n < |l| && n < |l'| && l[..n] == l'[..n] && NoRepeats(l) && NoRepeats(l')
    requires l[n] in r.Values && l'[n] in r.Values && AheadOfTheRest(r, p, l, n) && AheadOfTheRest(r, p, l', n)
    ensures l[n] == l'[n]
  {
    if l[n] != l'[n] {
      NotYetListed(l, n, l'[n]);
      NotYetListed(l', n, l[n]);
      NotBothWays(r, p, l[n], l'[n]);
    }
  }

  lemma {:induction false} OneListing(r: Ring, p: nat, count: nat, l: seq<Node>, l': seq<Node>, n: nat)
    requires ListedAsMet(r, p, count, l) && ListedAsMet(r, p, count, l') && n <= |l|
    ensures l[..n] == l'[..n]
  {
    if n > 0 {
      OneListing(r, p, count, l, l', n - 1);
      NextIsSame(r, p, l, l', n - 1);
      assert l[..n] == l[..n - 1] + [l[n - 1]] && l'[..n] == l'[..n - 1] + [l'[n - 1]];
    }
  }

  /** In the owners of one lap, first occurrences are ahead of the rest. */
  lemma FirstsAreAhead(r: Ring, p: nat, lap: seq<nat>, o: seq<Node>, l: seq<Node>, i: nat)
    requires IsLap(r.Keys, p, lap) && o == OwnersOn(r, lap) && l <= Firsts(o) && i < |l|
    ensures AheadOfTheRest(r, p, l, i)
  {
    OwnersOnAre(r, lap);
    assert l[..i + 1] == Firsts(o)[..i + 1];
    forall n | n in r.Values && n !in l[..i + 1] ensures MetBefore(r, p, l[i], n) {
      FirstsInOrder(o, i, n);
      MetAsOccurs(r, p, lap, l[i], n);
    }
  }

  lemma ListIsAsMet(r: Ring, p: nat, count: nat)
    ensures ListedAsMet(r, p, count, PreferenceList(r, p, count))
  {
    PreferenceListFacts(r, p, count, count);
    ListedByFirsts(r, p, count, Lap(r.Keys, p), Owners(r, p), PreferenceList(r, p, count));
  }

  lemma ListedByFirsts(r: Ring, p: nat, count: nat, lap: seq<nat>, o: seq<Node>, l: seq<Node>)
    requires IsLap(r.Keys, p, lap) && o == OwnersOn(r, lap) && l <= Firsts(o)
    requires NoRepeats(l) && (forall n :: n in l ==> n in r.Values) && |l| == Min(count, |r.Values|)
    ensures ListedAsMet(r, p, count, l)
  {
    forall i | 0 <= i < |l| ensures AheadOfTheRest(r, p, l, i) { FirstsAreAhead(r, p, lap, o, l, i); }
    assert forall i :: 0 <= i < |l| ==> l[i] in l;
  }

  /** The preference list by its positions: the owners in the order in which their positions are met going clockwise,
      and no other list is that. */
  lemma PreferenceListIff(r: Ring, p: nat, count: nat, l: seq<Node>)
    ensures l == PreferenceList(r, p, count) <==> ListedAsMet(r, p, count, l)
  {
    ListIsAsMet(r, p, count);
    if ListedAsMet(r, p, count, l) { SameListing(r, p, count, l, PreferenceList(r, p, count)); }
  }

  lemma SameListing(r: Ring, p: nat, count: nat, l: seq<Node>, l': seq<Node>)
    requires ListedAsMet(r, p, count, l) && ListedAsMet(r, p, count, l')
    ensures l == l'
  {
    OneListing(r, p, count, l, l', |l|);
    assert l[..|l|] == l && l'[..|l'|] == l';
  }

  lemma PrefixFacts<T>(s: seq<T>, count: nat, more: nat)
    requires count <= more && NoRepeats(s)
    ensures var t := s[..Min(count, |s|)]; NoRepeats(t) && (forall x :: x in t ==> x in s) && t <= s[..Min(more, |s|)]
  {
  }

  // ---------- Membership changes ----------

  /** The ring's positions of `x` are exactly `ps`: nobody else's position coincides with one of them. */
  predicate OwnsExactly(r: Ring, ps: set<nat>, x: Node) {
    ps <= r.Keys && forall q :: q in r ==> (r[q] == x <==> q in ps)
  }

  lemma {:induction false} OwnersOfFilter(r: Ring, ps: set<nat>, x: Node, lap: seq<nat>)
    requires OwnsExactly(r, ps, x) && forall q :: q in lap ==> q in r
    ensures var keep := (q: nat) => q in r.Keys - ps;
            && (forall q :: q in Filter(lap, keep) ==> q in r - ps)
            && OwnersOn(r - ps, Filter(lap, keep)) == Without(OwnersOn(r, lap), x)
  {
    var keep := (q: nat) => q in r.Keys - ps;
    FilterMembers(lap, keep);
    if lap != [] {
      assert lap[0] in lap && forall q :: q in lap[1..] ==> q in lap;
      OwnersOfFilter(r, ps, x, lap[1..]);
    }
  }

  /** Removing a node deletes it from every full preference list and keeps the order of the others. */
  lemma RemovalDeletes(r: Ring, ps: set<nat>, x: Node, p: nat)
    requires OwnsExactly(r, ps, x)
    ensures FullList(r - ps, p) == Without(FullList(r, p), x)
  {
    var lap, keep := Lap(r.Keys, p), (q: nat) => q in r.Keys - ps;
    assert (r - ps).Keys == r.Keys - ps;
    LapOfSubset(r.Keys, r.Keys - ps, p);
    OwnersOfFilter(r, ps, x, lap);
    assert Lap((r - ps).Keys, p) == Filter(lap, keep);
    FirstsOfWithout(Owners(r, p), x);
  }

  /** Adding a fresh node is the inverse: taking it out of the new lists gives the old ones back. */
  lemma AdditionInserts(r: Ring, ps: set<nat>, x: Node, p: nat)
    requires ps !! r.Keys && x !in r.Values
    ensures Claim(r, ps, x) - ps == r
    ensures FullList(r, p) == Without(FullList(Claim(r, ps, x), p), x)
  {
    var r' := Claim(r, ps, x);
    assert r' - ps == r;
    assert OwnsExactly(r', ps, x) by {
      forall q | q in r' ensures r'[q] == x <==> q in ps {
        assert q !in ps ==> r'[q] in r.Values;
      }
    }
    RemovalDeletes(r', ps, x, p);
  }

  lemma {:induction false} DropAbsent<T>(s: seq<T>, x: T)
    requires x !in s
    ensures Without(s, x) == s
  {
    if s != [] {
      assert s == [s[0]] + s[1..];
      DropAbsent(s[1..], x);
    }
  }

  lemma {:induction false} DropAt<T>(s: seq<T>, i: nat)
    requires NoRepeats(s) && i < |s|
    ensures Without(s, s[i]) == s[..i] + s[i + 1..]
  {
    var t := s[1..];
    if i == 0 {
      DropAbsent(t, s[0]);
    } else {
      assert t[i - 1] == s[i];
      DropAt(t, i - 1);
      assert [s[0]] + (t[..i - 1] + t[i..]) == s[..i] + s[i + 1..];
    }
  }

  /** Whatever the replication factor, a membership change replaces at most one replica of a key: the others keep
      serving it, and only the next node in the list can join. */
  lemma AtMostOneReplaced(r: Ring, ps: set<nat>, x: Node, p: nat, count: nat)
    requires OwnsExactly(r, ps, x)
    ensures Replaces(PreferenceList(r, p, count), PreferenceList(r - ps, p, count), x, Next(FullList(r, p), count))
  {
    assert NoRepeats(FullList(r, p)) by { FirstsFacts(Owners(r, p)); }
    assert FullList(r - ps, p) == Without(FullList(r, p), x) by { RemovalDeletes(r, ps, x, p); }
    DroppedPrefix(FullList(r, p), x, count);
  }

  /** Everyone but `x` stays, and nobody but `next` is new. */
  ghost predicate Replaces<T(!new)>(before: seq<T>, after: seq<T>, x: T, next: Option<T>) {
    (forall y :: y in before && y != x ==> y in after) && (forall y :: y in after && y !in before ==> next == Some(y))
  }

  function Next<T>(s: seq<T>, count: nat): Option<T> {
    if count < |s| then Some(s[count]) else None
  }

  lemma DroppedPrefix<T(!new)>(s: seq<T>, x: T, count: nat)
    requires NoRepeats(s)
    ensures var t := Without(s, x); Replaces(s[..Min(count, |s|)], t[..Min(count, |t|)], x, Next(s, count))
  {
    if x in s {
      var i :| 0 <= i < |s| && s[i] == x;
      DropAt(s, i);
      ShiftedPrefix(s, i, count);
    } else {
      DropAbsent(s, x);
    }
  }

  lemma ShiftedPrefix<T(!new)>(s: seq<T>, i: nat, count: nat)
    requires NoRepeats(s) && i < |s|
    ensures var t := s[..i] + s[i + 1..]; Replaces(s[..Min(count, |s|)], t[..Min(count, |t|)], s[i], Next(s, count))
  {
    var t := s[..i] + s[i + 1..];
    assert forall j :: 0 <= j < |t| ==> t[j] == if j < i then s[j] else s[j + 1];
    forall j | 0 <= j < Min(count, |s|) && j != i ensures s[j] in t[..Min(count, |t|)] {
      assert t[..Min(count, |t|)][if j < i then j else j - 1] == s[j];
    }
    forall j | 0 <= j < Min(count, |t|) && t[j] !in s[..Min(count, |s|)] ensures Next(s, count) == Some(t[j]) {
      OnlyNextIsNew(s, if j < i then j else j + 1, count);
    }
  }

  lemma OnlyNextIsNew<T>(s: seq<T>, j: nat, count: nat)
    requires j < |s| && j <= count
    ensures s[j] in s[..Min(count, |s|)] || Next(s, count) == Some(s[j])
  {
    if j < Min(count, |s|) { assert s[..Min(count, |s|)][j] == s[j]; }
  }

  // ---------- Minimal movement ----------

  /** Adding a node to a non-empty ring leaves a position's owner alone or makes it the new node, even when the new
      node's positions coincide with old ones. */
  lemma AdditionMovesToNewNode(r: Ring, ps: set<nat>, x: Node, p: nat)
    requires r != map[]
    ensures Claim(r, ps, x) != map[] && (Owner(Claim(r, ps, x), p) == Owner(r, p) || Owner(Claim(r, ps, x), p) == x)
  {
    var r' := Claim(r, ps, x);
    assert r'.Keys == r.Keys + ps && r.Keys != {} && r' != map[];
    var q, q' := Nearest(r.Keys, p), Nearest(r'.Keys, p);
    assert q in r'.Keys;
    if q' !in ps {
      assert q' in r.Keys;
      assert q' == q;
    }
  }

  /** Removing a node moves only the keys it owned. */
  lemma RemovalMovesOwnKeys(r: Ring, ps: set<nat>, x: Node, p: nat)
    requires OwnsExactly(r, ps, x) && r != map[] && Owner(r, p) != x
    ensures r - ps != map[] && Owner(r - ps, p) == Owner(r, p)
  {
    assert r.Keys != {};
    var q := Nearest(r.Keys, p);
    assert (r - ps).Keys == r.Keys - ps && q in r - ps;
    assert Nearest(r.Keys - ps, p) == q;
  }

  // ---------- Rings built by adding nodes ----------

  function Build(h: Hash, vnodes: nat, ids: seq<Node>): Ring {
    if ids == [] then map[]
    else Claim(Build(h, vnodes, ids[..|ids| - 1]), Positions(h, ids[|ids| - 1], vnodes), ids[|ids| - 1])
  }

  /** Different nodes never hash to the same position. */
  ghost predicate Disjoint(h: Hash, vnodes: nat, ids: seq<Node>) {
    forall i, j :: 0 <= i < |ids| && 0 <= j < |ids| && ids[i] != ids[j] ==>
      Positions(h, ids[i], vnodes) !! Positions(h, ids[j], vnodes)
  }

  /** Every position of every node is on the ring, and whoever owns a position has it among its own. */
  ghost predicate OwnPositions(h: Hash, vnodes: nat, ids: seq<Node>, r: Ring) {
    && (forall i :: 0 <= i < |ids| ==> Positions(h, ids[i], vnodes) <= r.Keys)
    && (forall q :: q in r ==> r[q] in ids && q in Positions(h, r[q], vnodes))
  }

  lemma ClaimOwns(h: Hash, vnodes: nat, pre: seq<Node>, x: Node, r: Ring)
    requires OwnPositions(h, vnodes, pre, r)
    ensures OwnPositions(h, vnodes, pre + [x], Claim(r, Positions(h, x, vnodes), x))
  {
    var ps := Positions(h, x, vnodes);
    var r' := Claim(r, ps, x);
    assert r'.Keys == r.Keys + ps && x in pre + [x];
    forall q | q in r' ensures r'[q] in pre + [x] && q in Positions(h, r'[q], vnodes) {
      if q !in ps { assert r'[q] == r[q] && r[q] in pre; }
    }
  }

  lemma {:induction false} BuildOwns(h: Hash, vnodes: nat, ids: seq<Node>)
    ensures OwnPositions(h, vnodes, ids, Build(h, vnodes, ids))
  {
    if ids != [] {
      var pre, x := ids[..|ids| - 1], ids[|ids| - 1];
      assert ids == pre + [x];
      BuildOwns(h, vnodes, pre);
      ClaimOwns(h, vnodes, pre, x, Build(h, vnodes, pre));
      BuildOne(h, vnodes, pre, x);
    }
  }

  lemma BuildOwnsExactly(h: Hash, vnodes: nat, ids: seq<Node>, x: Node)
    requires Disjoint(h, vnodes, ids) && x in ids
    ensures OwnsExactly(Build(h, vnodes, ids), Positions(h, x, vnodes), x)
  {
    BuildOwns(h, vnodes, ids);
    var r := Build(h, vnodes, ids);
    var i :| 0 <= i < |ids| && ids[i] == x;
    forall q | q in r && q in Positions(h, x, vnodes) ensures r[q] == x {
      var j :| 0 <= j < |ids| && ids[j] == r[q];
    }
  }

  /** Adding the same nodes in any order gives the same ring. */
  lemma OrderIsIrrelevant(h: Hash, vnodes: nat, ids: seq<Node>, ids': seq<Node>)
    requires Disjoint(h, vnodes, ids) && Disjoint(h, vnodes, ids') && forall x :: x in ids <==> x in ids'
    ensures Build(h, vnodes, ids) == Build(h, vnodes, ids')
  {
    var r, r' := Build(h, vnodes, ids), Build(h, vnodes, ids');
    forall q | q in r ensures q in r' && r'[q] == r[q] { SameOwner(h, vnodes, ids, ids', q); }
    forall q | q in r' ensures q in r { SameOwner(h, vnodes, ids', ids, q); }
  }

  lemma SameOwner(h: Hash, vnodes: nat, ids: seq<Node>, ids': seq<Node>, q: nat)
    requires Disjoint(h, vnodes, ids) && Disjoint(h, vnodes, ids') && forall x :: x in ids <==> x in ids'
    requires q in Build(h, vnodes, ids)
    ensures q in Build(h, vnodes, ids') && Build(h, vnodes, ids')[q] == Build(h, vnodes, ids)[q]
  {
    BuildOwns(h, vnodes, ids);
    BuildOwnsExactly(h, vnodes, ids', Build(h, vnodes, ids)[q]);
  }

  lemma WithoutIsDisjoint(h: Hash, vnodes: nat, ids: seq<Node>, x: Node)
    requires Disjoint(h, vnodes, ids) && NoRepeats(ids)
    ensures Disjoint(h, vnodes, Without(ids, x)) && NoRepeats(Without(ids, x))
  {
    WithoutKeepsApart(ids, x);
    var rest := Without(ids, x);
    forall i, j | 0 <= i < |rest| && 0 <= j < |rest| && rest[i] != rest[j]
      ensures Positions(h, rest[i], vnodes) !! Positions(h, rest[j], vnodes)
    {
      WithoutMembers(ids, x);
      assert rest[i] in rest && rest[j] in rest;
      var a :| 0 <= a < |ids| && ids[a] == rest[i];
      var b :| 0 <= b < |ids| && ids[b] == rest[j];
    }
  }

  lemma {:induction false} WithoutKeepsApart<T>(s: seq<T>, x: T)
    requires NoRepeats(s)
    ensures NoRepeats(Without(s, x))
  {
    if s != [] {
      var pre, y := s[..|s| - 1], s[|s| - 1];
      assert s == pre + [y];
      WithoutKeepsApart(pre, x);
      WithoutAppend(pre, y, x);
      WithoutMembers(pre, x);
      forall i | 0 <= i < |Without(pre, x)| ensures Without(pre, x)[i] != y {
        assert Without(pre, x)[i] in Without(pre, x);
      }
    }
  }

  lemma {:induction false} NothingLeftOut(ids: seq<Node>, x: Node)
    requires x !in ids
    ensures Without(ids, x) == ids
  {
    if ids != [] {
      var pre := ids[..|ids| - 1];
      assert ids == pre + [ids[|ids| - 1]];
      NothingLeftOut(pre, x);
      WithoutAppend(pre, ids[|ids| - 1], x);
    }
  }

  /** Removing a node that is on the ring, or one whose positions nobody has, leaves the ring of the other nodes. */
  lemma RemovalRebuilds(h: Hash, vnodes: nat, ids: seq<Node>, x: Node)
    requires Disjoint(h, vnodes, ids) && NoRepeats(ids)
    requires x in ids || Positions(h, x, vnodes) !! Build(h, vnodes, ids).Keys
    ensures Build(h, vnodes, ids) - Positions(h, x, vnodes) == Build(h, vnodes, Without(ids, x))
  {
    var r, ps, r' := Build(h, vnodes, ids), Positions(h, x, vnodes), Build(h, vnodes, Without(ids, x));
    WithoutIsDisjoint(h, vnodes, ids, x);
    forall q | q in r && q !in ps ensures q in r' && r'[q] == r[q] { OthersStay(h, vnodes, ids, x, q); }
    forall q | q in r' ensures q in r && q !in ps { OthersWere(h, vnodes, ids, x, q); }
  }

  lemma OthersStay(h: Hash, vnodes: nat, ids: seq<Node>, x: Node, q: nat)
    requires Disjoint(h, vnodes, ids) && Disjoint(h, vnodes, Without(ids, x))
    requires q in Build(h, vnodes, ids) && q !in Positions(h, x, vnodes)
    ensures q in Build(h, vnodes, Without(ids, x)) && Build(h, vnodes, Without(ids, x))[q] == Build(h, vnodes, ids)[q]
  {
    BuildOwns(h, vnodes, ids);
    WithoutMembers(ids, x);
    BuildOwnsExactly(h, vnodes, Without(ids, x), Build(h, vnodes, ids)[q]);
  }

  lemma OthersWere(h: Hash, vnodes: nat, ids: seq<Node>, x: Node, q: nat)
    requires Disjoint(h, vnodes, ids) && Disjoint(h, vnodes, Without(ids, x)) && q in Build(h, vnodes, Without(ids, x))
    requires x in ids || Positions(h, x, vnodes) !! Build(h, vnodes, ids).Keys
    ensures q in Build(h, vnodes, ids) && q !in Positions(h, x, vnodes)
  {
    BuildOwns(h, vnodes, Without(ids, x));
    WithoutMembers(ids, x);
    var y := Build(h, vnodes, Without(ids, x))[q];
    BuildOwnsExactly(h, vnodes, ids, y);
    if x in ids { BuildOwnsExactly(h, vnodes, ids, x); }
  }

  /** With at least one virtual node each, every node owns a position. */
  lemma EveryNodeOwns(h: Hash, vnodes: nat, ids: seq<Node>)
    requires Disjoint(h, vnodes, ids) && vnodes > 0 && NoRepeats(ids)
    ensures (forall x :: x in Build(h, vnodes, ids).Values <==> x in ids) && |Build(h, vnodes, ids).Values| == |ids|
  {
    var r := Build(h, vnodes, ids);
    BuildOwns(h, vnodes, ids);
    forall x | x in ids ensures x in r.Values {
      BuildOwnsExactly(h, vnodes, ids, x);
      assert h(VirtualNode(x, vnodes - 1)) in Positions(h, x, vnodes);
      assert h(VirtualNode(x, vnodes - 1)) in r;
    }
    CountDistinct(ids, r.Values);
  }

  lemma BuildOne(h: Hash, vnodes: nat, ids: seq<Node>, x: Node)
    ensures Build(h, vnodes, ids + [x]) == Claim(Build(h, vnodes, ids), Positions(h, x, vnodes), x)
  {
    assert (ids + [x])[..|ids|] == ids;
  }

  /** What goes wrong when two nodes hash to the same positions: removing one takes the other off the ring. */
  lemma CoincidenceLosesNode(h: Hash, vnodes: nat, x: Node, y: Node)
    requires x != y && Positions(h, x, vnodes) == Positions(h, y, vnodes)
    ensures y !in (Build(h, vnodes, [x, y]) - Positions(h, x, vnodes)).Values
  {
    var ps := Positions(h, x, vnodes);
    BuildOne(h, vnodes, [], x);
    BuildOne(h, vnodes, [x], y);
    var r := Build(h, vnodes, [] + [x] + [y]);
    assert r.Keys == {} + ps + ps;
    assert (r - ps).Keys == {};
  }

  // ---------- The walk of get_nodes, for any number of steps ----------

  /** The result vector after `n` turns of the loop, going round the owners `o` as often as it takes. */
  function WalkOver<T(==)>(o: seq<T>, n: nat): seq<T>
    requires o != []
  {
    if n == 0 then []
    else
      var w, x := WalkOver(o, n - 1), o[(n - 1) % |o|];
      if x in w then w else w + [x]
  }

  lemma {:induction false} WalkStaysInside<T>(o: seq<T>, n: nat)
    requires o != []
    ensures NoRepeats(WalkOver(o, n)) && forall x :: x in WalkOver(o, n) ==> x in o
  {
    if n > 0 {
      WalkStaysInside(o, n - 1);
      assert o[(n - 1) % |o|] in o;
    }
  }

  lemma SmallModulus(a: nat, b: nat)
    requires a < b
    ensures a % b == a
  {
  }

  lemma FirstsOfPrefix<T>(o: seq<T>, n: nat)
    requires 0 < n <= |o|
    ensures Firsts(o[..n]) == var d := Firsts(o[..n - 1]); if o[n - 1] in d then d else d + [o[n - 1]]
  {
    assert o[..n] == o[..n - 1] + [o[n - 1]];
    FirstsAppend(o[..n - 1], o[n - 1]);
  }

  lemma {:induction false} WalkOneLap<T>(o: seq<T>, n: nat)
    requires o != [] && n <= |o|
    ensures WalkOver(o, n) == Firsts(o[..n])
  {
    if n > 0 {
      WalkOneLap(o, n - 1);
      SmallModulus(n - 1, |o|);
      FirstsOfPrefix(o, n);
    }
  }

  ghost function Walk(r: Ring, p: nat, n: nat): seq<Node>
    requires r != map[]
  {
    OwnersAre(r, p);
    WalkOver(Owners(r, p), n)
  }

  lemma WalkBound(r: Ring, p: nat, n: nat)
    requires r != map[]
    ensures |Walk(r, p, n)| <= |r.Values|
  {
    OwnersAre(r, p);
    WalkStaysInside(Owners(r, p), n);
    NoMoreThan(Walk(r, p, n), r.Values);
  }

  lemma FullLap(r: Ring, p: nat)
    requires r != map[]
    ensures Walk(r, p, |r|) == FullList(r, p) && |FullList(r, p)| == |r.Values|
  {
    var o := Owners(r, p);
    OwnersAre(r, p);
    assert |o| == |r.Keys| == |r| && o[..|o|] == o;
    WalkOneLap(o, |o|);
    FirstsFacts(o);
    CountDistinct(Firsts(o), r.Values);
  }

  /** The loop ends if and only if there are as many owners as it wants, and then within one lap. */
  lemma WalkEndsIff(r: Ring, p: nat, count: nat)
    requires r != map[]
    ensures (exists n: nat :: |Walk(r, p, n)| >= count) <==> count <= |r.Values|
    ensures count <= |r.Values| ==> |Walk(r, p, |r|)| >= count
  {
    FullLap(r, p);
    if n: nat :| |Walk(r, p, n)| >= count {
      WalkBound(r, p, n);
    }
  }

  /** A node id given twice: the node list counts two nodes, the ring has one owner, and the walk for two never ends. */
  lemma RepeatedIdNeverEnds(h: Hash, vnodes: nat, x: Node, p: nat, count: nat)
    requires vnodes > 0 && count >= 2
    ensures Build(h, vnodes, [x, x]) != map[] && Min(count, |[x, x]|) == 2
    ensures forall n: nat :: |Walk(Build(h, vnodes, [x, x]), p, n)| < 2
  {
    var r := Build(h, vnodes, [x, x]);
    BuildOne(h, vnodes, [], x);
    BuildOne(h, vnodes, [x], x);
    assert [] + [x] == [x] && [x] + [x] == [x, x];
    assert h(VirtualNode(x, vnodes - 1)) in Positions(h, x, vnodes);
    assert h(VirtualNode(x, vnodes - 1)) in r.Keys;
    assert r.Values <= {x};
    AtMostOne(r.Values, x);
    forall n: nat ensures |Walk(r, p, n)| < 2 { WalkBound(r, p, n); }
  }

  lemma AtMostOne(xs: set<Node>, x: Node)
    requires xs <= {x}
    ensures |xs| <= 1
  {
    assert xs == {} || xs == {x};
  }
}
