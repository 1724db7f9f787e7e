/** The vocabulary shared by every component: requests, responses and the one-map semantics that the whole
    system is measured against.  Strings stand for byte strings: each character is one unsigned byte. */
module KvSpec {

  type Key = string
  type Value = string
  type Node = string
  type Store = map<Key, Value>

  datatype Option<+T> = None | Some(value: T)

  /** A client command.  Only SET carries a value, and PING carries nothing. */
  datatype Request = Get(key: Key) | Set(key: Key, value: Value) | Delete(key: Key) | Ping

  datatype Response = ValueIs(value: Value) | NotFound | Ok | Deleted | Pong | Error(message: string)

  predicate NoRepeats<T(==)>(s: seq<T>) {
    forall i, j :: 0 <= i < j < |s| ==> s[i] != s[j]
  }

  lemma {:induction false} NoMoreThan<T>(s: seq<T>, xs: set<T>)
    requires NoRepeats(s) && forall x :: x in s ==> x in xs
    ensures |s| <= |xs|
  {
    if s != [] {
      var t, x := s[..|s| - 1], s[|s| - 1];
      assert forall y :: y in t ==> y in s && y in xs - {x};
      NoMoreThan(t, xs - {x});
    }
  }

  lemma {:induction false} FewElements<T>(xs: set<T>, ys: seq<T>)
    requires forall x :: x in xs ==> x in ys
    ensures |xs| <= |ys|
  {
    if ys == [] {
      assert xs == {};
    } else {
      FewElements(xs - {ys[0]}, ys[1..]);
      assert xs <= (xs - {ys[0]}) + {ys[0]};
    }
  }

  function Lookup(s: Store, k: Key): Option<Value> {
    if k in s then Some(s[k]) else None
  }

  /** What one request does to one map, and what it answers. */
  function Exec(s: Store, r: Request): (Store, Response) {
    match r
    case Get(k) => (s, if k in s then ValueIs(s[k]) else NotFound)
    case Set(k, v) => (s[k := v], Ok)
    case Delete(k) => if k in s then (s - {k}, Deleted) else (s, NotFound)
    case Ping => (s, Pong)
  }

  predicate IsWrite(r: Request) {
    r.Set? || r.Delete?
  }

  /** What a write leaves behind under its key. */
  function Effect(r: Request): Option<Value>
    requires IsWrite(r)
  {
    if r.Set? then Some(r.value) else None
  }

  function Digit(d: nat): char
    requires d < 10
  {
    ('0' as int + d) as char
  }

  /** `std::to_string` on an unsigned number. */
  function Decimal(n: nat): string {
    if n < 10 then [Digit(n)] else Decimal(n / 10) + [Digit(n % 10)]
  }

  /** Requests run one after another on one map. */
  function Replay(s: Store, rs: seq<Request>): (o: (Store, seq<Response>))
    ensures |o.1| == |rs|
    decreases |rs|
  {
    if rs == [] then (s, [])
    else
      var (s1, r) := Exec(s, rs[0]);
      var (s2, rest) := Replay(s1, rs[1..]);
      (s2, [r] + rest)
  }

  /** A request sees and changes its own key only. */
  lemma ExecIsLocal(a: Store, b: Store, r: Request)
    requires !r.Ping? && Lookup(a, r.key) == Lookup(b, r.key)
    ensures Exec(a, r).1 == Exec(b, r).1
    ensures Lookup(Exec(a, r).0, r.key) == Lookup(Exec(b, r).0, r.key)
    ensures forall k :: k != r.key ==> Lookup(Exec(a, r).0, k) == Lookup(a, k)
  {
  }
}
