/** The 64-bit hash of keys and virtual nodes: FNV-1a over the bytes, then MurmurHash3's finalizer.  Words are natural
    numbers below 2^64; exclusive or and shifting are defined bit by bit. */
module HashArithmetic {
  import opened KvSpec
  import RoundTrip
  import opened HashRing
  import StripeLocks

  const TWO64: nat := 0x1_0000_0000_0000_0000
  const OFFSET_BASIS: Word := 14695981039346656037
  const PRIME: Word := 1099511628211
  const FACTOR_A: Word := 0xff51afd7ed558ccd
  const FACTOR_B: Word := 0xc4ceb9fe1a85ec53

  type Word = x: nat | x < TWO64
  type Byte = x: nat | x < 256

  function Xor(a: nat, b: nat): nat
    decreases a + b
  {
    if a == 0 && b == 0 then 0 else 2 * Xor(a / 2, b / 2) + if a % 2 != b % 2 then 1 else 0
  }

  function ShiftRight(a: nat, n: nat): nat {
    if n == 0 then a else ShiftRight(a / 2, n - 1)
  }

  /** Multiplication that wraps around. */
  function Times(a: Word, b: Word): Word {
    (a * b) % TWO64
  }

  // ---------- Exclusive or ----------

  function Pow2(n: nat): nat {
    if n == 0 then 1 else 2 * Pow2(n - 1)
  }

  lemma {:induction false} XorZero(a: nat)
    ensures Xor(a, 0) == a
  {
    if a > 0 { XorZero(a / 2); }
  }

  lemma {:induction false} XorCommutes(a: nat, b: nat)
    ensures Xor(a, b) == Xor(b, a)
    decreases a + b
  {
    if a > 0 || b > 0 { XorCommutes(a / 2, b / 2); }
  }

  lemma {:induction false} XorTwice(a: nat, b: nat)
    ensures Xor(Xor(a, b), b) == a
    decreases a + b
  {
    if a > 0 || b > 0 {
      XorTwice(a / 2, b / 2);
      assert Xor(a, b) / 2 == Xor(a / 2, b / 2);
    }
  }

  lemma XorInjective(a: nat, b: nat, b': nat)
    requires Xor(a, b) == Xor(a, b')
    ensures b == b'
  {
    XorCommutes(a, b);
    XorCommutes(a, b');
    XorTwice(b, a);
    XorTwice(b', a);
  }

  /** Exclusive or with an n-bit number moves a number by less than 2^n, and keeps n-bit numbers n bits wide. */
  lemma {:induction false} XorNear(a: nat, b: nat, n: nat)
    requires b < Pow2(n)
    ensures a < Xor(a, b) + Pow2(n) && Xor(a, b) < a + Pow2(n)
    ensures a < Pow2(n) ==> Xor(a, b) < Pow2(n)
    decreases n
  {
    if n > 0 { XorNear(a / 2, b / 2, n - 1); } else { XorZero(a); }
  }

  lemma {:induction false} XorShifted(a: nat, b: nat, n: nat)
    ensures ShiftRight(Xor(a, b), n) == Xor(ShiftRight(a, n), ShiftRight(b, n))
    decreases n
  {
    if n > 0 {
      XorShifted(a / 2, b / 2, n - 1);
      assert Xor(a, b) / 2 == Xor(a / 2, b / 2);
    }
  }

  lemma {:induction false} ShiftTwice(a: nat, m: nat, n: nat)
    ensures ShiftRight(ShiftRight(a, m), n) == ShiftRight(a, m + n)
    decreases m
  {
    if m > 0 { ShiftTwice(a / 2, m - 1, n); }
  }

  lemma {:induction false} ShiftBound(a: nat, b: nat, n: nat)
    requires a < Pow2(b)
    ensures ShiftRight(a, n) < Pow2(b)
    ensures b <= n ==> ShiftRight(a, n) == 0
    decreases n
  {
    if n > 0 {
      if b > 0 { ShiftBound(a / 2, b - 1, n - 1); } else { ShiftBound(a, b, n - 1); }
    }
  }

  lemma Powers()
    ensures Pow2(8) == 256 && Pow2(64) == TWO64
  {
    assert Pow2(4) == 16;
    assert Pow2(8) == 256;
    assert Pow2(12) == 0x1000;
    assert Pow2(16) == 0x1_0000;
    assert Pow2(20) == 0x10_0000;
    assert Pow2(24) == 0x100_0000;
    assert Pow2(28) == 0x1000_0000;
    assert Pow2(32) == 0x1_0000_0000;
    assert Pow2(36) == 0x10_0000_0000;
    assert Pow2(40) == 0x100_0000_0000;
    assert Pow2(44) == 0x1000_0000_0000;
    assert Pow2(48) == 0x1_0000_0000_0000;
    assert Pow2(52) == 0x10_0000_0000_0000;
    assert Pow2(56) == 0x100_0000_0000_0000;
    assert Pow2(60) == 0x1000_0000_0000_0000;
  }

  // ---------- The finalizer is a bijection ----------

  function XorShift(k: Word): Word {
    ShiftedFits(k);
    Xor(k, ShiftRight(k, 33))
  }

  lemma ShiftedFits(k: Word)
    ensures Xor(k, ShiftRight(k, 33)) < TWO64
  {
    Powers();
    ShiftBound(k, 64, 33);
    XorNear(k, ShiftRight(k, 33), 64);
  }

  lemma XorShiftUndone(k: Word)
    ensures XorShift(XorShift(k)) == k
  {
    var s := ShiftRight(k, 33);
    XorShifted(k, s, 33);
    ShiftTwice(k, 33, 33);
    Powers();
    ShiftBound(k, 64, 66);
    XorZero(s);
    XorTwice(k, s);
  }

  lemma TimesUndone(k: Word, a: Word, b: Word, c: nat)
    requires a * b == 1 + c * TWO64
    ensures Times(Times(k, a), b) == k
  {
    var q := (k * a) / TWO64;
    var t := Times(k, a);
    assert t == k * a - q * TWO64;
    calc {
      t * b;
      k * a * b - q * TWO64 * b;
      { assert k * a * b == k * (a * b) == k + k * (c * TWO64); }
      k + (k * c - q * b) * TWO64;
    }
    Remainder(t * b, k, k * c - q * b);
  }

  lemma Remainder(v: nat, k: Word, c: int)
    requires v == k + c * TWO64
    ensures v % TWO64 == k
  {
  }

  function Fmix64(k: Word): Word {
    XorShift(Times(XorShift(Times(XorShift(k), FACTOR_A)), FACTOR_B))
  }

  const INVERSE_A: Word := 0x4f74430c22a54005
  const INVERSE_B: Word := 0x9cb4b2f8129337db

  function Unmix64(k: Word): Word {
    XorShift(Times(XorShift(Times(XorShift(k), INVERSE_B)), INVERSE_A))
  }

  /** The finalizer is a bijection on 64-bit words, with an explicit inverse. */
  lemma FinalizerIsBijective(k: Word)
    ensures Unmix64(Fmix64(k)) == k && Fmix64(Unmix64(k)) == k
  {
    RoundsUndone(k, FACTOR_A, FACTOR_B, INVERSE_A, INVERSE_B, 5710046619856821070, 8680939279959119233);
    RoundsUndone(k, INVERSE_B, INVERSE_A, FACTOR_B, FACTOR_A, 8680939279959119233, 5710046619856821070);
  }

  lemma RoundsUndone(k: Word, a: Word, b: Word, a': Word, b': Word, c: nat, d: nat)
    requires a * a' == 1 + c * TWO64 && b * b' == 1 + d * TWO64
    ensures XorShift(Times(XorShift(Times(XorShift(XorShift(Times(XorShift(Times(XorShift(k), a)), b))), b')), a')) == k
  {
    var f1 := XorShift(k);
    var f2 := Times(f1, a);
    var f3 := XorShift(f2);
    var f4 := Times(f3, b);
    XorShiftUndone(f4);
    TimesUndone(f3, b, b', d);
    XorShiftUndone(f2);
    TimesUndone(f1, a, a', c);
    XorShiftUndone(k);
  }

  // ---------- FNV-1a ----------

  const INVERSE_PRIME: Word := 0xce965057aff6957b

  function Absorb(h: Word, c: Byte): Word {
    ByteFits(h, c);
    Xor(h, c)
  }

  lemma ByteFits(h: Word, c: Byte)
    ensures Xor(h, c) < TWO64
  {
    Powers();
    XorNear(h, c, 64);
  }

  function FnvStep(h: Word, c: Byte): Word {
    Times(Absorb(h, c), PRIME)
  }

  /** Absorb bytes one by one. */
  function Fold(step: (Word, Byte) -> Word, h: Word, s: seq<Byte>): Word
    decreases s
  {
    if s == [] then h else Fold(step, step(h, s[0]), s[1..])
  }

  function Fnv(h: Word, s: seq<Byte>): Word {
    Fold(FnvStep, h, s)
  }

  function ByteOf(c: char): Byte {
    c as int % 256
  }

  function Bytes(s: string): seq<Byte> {
    seq(|s|, i requires 0 <= i < |s| => ByteOf(s[i]))
  }

  /** The hash of keys and virtual nodes. */
  function Fnv1aHash(s: string): Word {
    Fmix64(Fnv(OFFSET_BASIS, Bytes(s)))
  }

  /** `shard_for`: the hash also picks a key's shard in the store. */
  function ShardOf(k: Key): (i: nat)
    ensures i < StripeLocks.SHARDS
  {
    Fnv1aHash(k) % StripeLocks.SHARDS
  }

  /** The loop over the characters. */
  method Fnv1a(s: string) returns (h: Word)
    ensures h == Fnv1aHash(s)
  {
    h := OFFSET_BASIS;
    var b := Bytes(s);
    for i := 0 to |s|
      invariant Fold(FnvStep, h, b[i..]) == Fold(FnvStep, OFFSET_BASIS, b)
    {
      assert b[i..][1..] == b[i + 1..];
      h := Absorb(h, ByteOf(s[i]));
      h := Times(h, PRIME);
    }
    h := Fmix64(h);
  }

  lemma {:induction false} FoldAppend(step: (Word, Byte) -> Word, h: Word, s: seq<Byte>, t: seq<Byte>)
    ensures Fold(step, h, s + t) == Fold(step, Fold(step, h, s), t)
    decreases s
  {
    if s == [] {
      assert s + t == t;
    } else {
      FoldAppend(step, step(h, s[0]), s[1..], t);
      assert (s + t)[1..] == s[1..] + t;
    }
  }

  ghost predicate KeepsApart(step: (Word, Byte) -> Word) {
    forall h, h', c :: step(h, c) == step(h', c) ==> h == h'
  }

  lemma {:induction false} FoldKeepsApart(step: (Word, Byte) -> Word, h: Word, h': Word, s: seq<Byte>)
    requires KeepsApart(step) && Fold(step, h, s) == Fold(step, h', s)
    ensures h == h'
    decreases s
  {
    if s != [] { FoldKeepsApart(step, step(h, s[0]), step(h', s[0]), s[1..]); }
  }

  lemma StepInjective(h: Word, h': Word, c: Byte)
    requires FnvStep(h, c) == FnvStep(h', c)
    ensures h == h'
  {
    SameMultiplied(Absorb(h, c), Absorb(h', c));
    XorTwice(h, c);
    XorTwice(h', c);
  }

  /** Each FNV step is injective, so different states stay different whatever bytes follow. */
  lemma FnvInjectiveInState(h: Word, h': Word, s: seq<Byte>)
    ensures Fnv(h, s) == Fnv(h', s) <==> h == h'
  {
    StepKeepsApart();
    if Fnv(h, s) == Fnv(h', s) { FoldKeepsApart(FnvStep, h, h', s); }
  }

  lemma StepKeepsApart()
    ensures KeepsApart(FnvStep)
  {
    forall h, h', c | FnvStep(h, c) == FnvStep(h', c) ensures h == h' { StepInjective(h, h', c); }
  }

  // ---------- No collisions inside a short window ----------

  /** The arithmetic core: with P the FNV prime, d P^2 + f P = e modulo 2^64 has only the zero solution in this
      range. */
  lemma SmallMultiples(d: int, f: int, e: int, m: int)
    requires -510 <= d <= 510 && -510 <= f <= 510 && -510 <= e <= 510
    requires d * (PRIME * PRIME) + f * PRIME == e + m * TWO64
    ensures d == 0 && f == 0 && e == 0
  {
    assert PRIME * PRIME == 0x1_0000 * TWO64 + 870 * 0x100_0000_0000 + 189225;
    var n := m - d * 0x1_0000;
    assert d * (870 * 0x100_0000_0000 + 189225) + f * PRIME == e + n * TWO64;
    assert n == 0;
    assert (870 * d + f) * 0x100_0000_0000 == e - 189225 * d - 435 * f;
    assert 870 * d + f == 0;
  }

  lemma SameMultiplied(x: Word, y: Word)
    requires Times(x, PRIME) == Times(y, PRIME)
    ensures x == y
  {
    TimesUndone(x, PRIME, INVERSE_PRIME, 887285111055);
    TimesUndone(y, PRIME, INVERSE_PRIME, 887285111055);
  }

  /** How far two states are apart after the same number of steps. */
  lemma StepsApart(x: Word, y: Word) returns (k: int)
    ensures Times(x, PRIME) - Times(y, PRIME) == (x - y) * PRIME + k * TWO64
  {
    k := (y * PRIME) / TWO64 - (x * PRIME) / TWO64;
  }

  lemma TwoMultiplications(d: int, u: int, f: int, e: int, j: int, k: int)
    requires -510 <= d <= 510 && -510 <= f <= 510 && -510 <= e <= 510
    requires u == d * PRIME + j * TWO64 && e == (u + f) * PRIME + k * TWO64
    ensures d == 0 && f == 0 && e == 0
  {
    assert (u + f) * PRIME == d * (PRIME * PRIME) + f * PRIME + j * PRIME * TWO64;
    SmallMultiples(d, f, e, -j * PRIME - k);
  }

  /** Two rounds of steps: x and y are the states with a byte mixed in, before each multiplication. */
  lemma TwoRounds(x: Word, y: Word, x': Word, y': Word)
    requires Near(x, y) && Near(Times(x', PRIME), Times(y', PRIME))
    requires -510 <= (x' - Times(x, PRIME)) - (y' - Times(y, PRIME)) <= 510
    ensures x == y && x' == y'
  {
    var j := StepsApart(x, y);
    var k := StepsApart(x', y');
    var u := Times(x, PRIME) - Times(y, PRIME);
    var e := Times(x', PRIME) - Times(y', PRIME);
    TwoMultiplications(x - y, u, x' - y' - u, e, j, k);
  }

  predicate Near(x: Word, y: Word) {
    -510 <= x - y <= 510
  }

  ghost predicate MixesIn(absorb: (Word, Byte) -> Word) {
    && (forall h, c :: -256 < absorb(h, c) - h < 256)
    && (forall h, c, c' :: absorb(h, c) == absorb(h, c') ==> c == c')
  }

  lemma AbsorbMixesIn()
    ensures MixesIn(Absorb)
  {
    forall h: Word, c: Byte ensures -256 < Absorb(h, c) - h < 256 {
      Powers();
      XorNear(h, c, 8);
    }
    forall h: Word, c: Byte, c': Byte | Absorb(h, c) == Absorb(h, c') ensures c == c' { XorInjective(h, c, c'); }
  }

  function Mul(x: Word): Word {
    Times(x, PRIME)
  }

  lemma ThreeRounds(m: (Word, Byte) -> Word, h: Word, a: Byte, a': Byte, a'': Byte, b: Byte, b': Byte, b'': Byte)
    requires MixesIn(m)
    requires m(Mul(m(Mul(m(h, a)), a')), a'') == m(Mul(m(Mul(m(h, b)), b')), b'')
    ensures a == b && a' == b' && a'' == b''
  {
    TwoRounds(m(h, a), m(h, b), m(Mul(m(h, a)), a'), m(Mul(m(h, b)), b'));
  }

  lemma Unfold(step: (Word, Byte) -> Word, h: Word, s: seq<Byte>)
    requires |s| == 3
    ensures Fold(step, h, s) == step(step(step(h, s[0]), s[1]), s[2])
  {
    var h1 := step(h, s[0]);
    var h2 := step(h1, s[1]);
    assert Fold(step, h, s) == Fold(step, h1, s[1..]);
    assert Fold(step, h1, s[1..]) == Fold(step, h2, s[1..][1..]);
    assert Fold(step, h2, s[1..][1..]) == Fold(step, step(h2, s[2]), s[1..][1..][1..]);
  }

  /** Three bytes from one state: the final states differ unless the bytes agree. */
  lemma ThreeBytes(h: Word, a: seq<Byte>, b: seq<Byte>)
    requires |a| == 3 && |b| == 3 && Fnv(h, a) == Fnv(h, b)
    ensures a == b
  {
    Unfold(FnvStep, h, a);
    Unfold(FnvStep, h, b);
    SameMultiplied(Absorb(FnvStep(FnvStep(h, a[0]), a[1]), a[2]), Absorb(FnvStep(FnvStep(h, b[0]), b[1]), b[2]));
    AbsorbMixesIn();
    ThreeRounds(Absorb, h, a[0], a[1], a[2], b[0], b[1], b[2]);
    assert a == [a[0], a[1], a[2]] && b == [b[0], b[1], b[2]];
  }

  /** The same for a shorter window, padded with zero bytes. */
  lemma ShortWindow(h: Word, a: seq<Byte>, b: seq<Byte>)
    requires |a| == |b| <= 3 && Fnv(h, a) == Fnv(h, b)
    ensures a == b
  {
    var z := seq(3 - |a|, i => 0);
    FoldAppend(FnvStep, h, a, z);
    FoldAppend(FnvStep, h, b, z);
    ThreeBytes(h, a + z, b + z);
    assert a == (a + z)[..|a|] && b == (b + z)[..|a|];
  }

  predicate SingleBytes(s: string) {
    forall c :: c in s ==> c as int < 256
  }

  lemma BytesInThree(p: string, a: string, q: string)
    ensures Bytes(p + a + q) == Bytes(p) + Bytes(a) + Bytes(q)
  {
  }

  /** Strings of equal length that differ only inside a window of at most three adjacent bytes never collide. */
  lemma NoShortWindowCollision(p: string, a: string, b: string, q: string)
    requires |a| == |b| <= 3 && SingleBytes(a) && SingleBytes(b)
    ensures Fnv1aHash(p + a + q) == Fnv1aHash(p + b + q) <==> a == b
  {
    if Fnv1aHash(p + a + q) == Fnv1aHash(p + b + q) {
      SameBeforeMixing(p + a + q, p + b + q);
      BytesInThree(p, a, q);
      BytesInThree(p, b, q);
      Window(OFFSET_BASIS, Bytes(p), Bytes(a), Bytes(b), Bytes(q));
      SameBytes(a, b);
    }
  }

  lemma SameBeforeMixing(s: string, t: string)
    requires Fnv1aHash(s) == Fnv1aHash(t)
    ensures Fnv(OFFSET_BASIS, Bytes(s)) == Fnv(OFFSET_BASIS, Bytes(t))
  {
    FinalizerIsBijective(Fnv(OFFSET_BASIS, Bytes(s)));
    FinalizerIsBijective(Fnv(OFFSET_BASIS, Bytes(t)));
  }

  lemma SameBytes(a: string, b: string)
    requires |a| == |b| && SingleBytes(a) && SingleBytes(b) && Bytes(a) == Bytes(b)
    ensures a == b
  {
    forall i | 0 <= i < |a| ensures a[i] == b[i] {
      assert Bytes(a)[i] == Bytes(b)[i] && a[i] in a && b[i] in b;
    }
  }

  lemma Window(h: Word, p: seq<Byte>, a: seq<Byte>, b: seq<Byte>, q: seq<Byte>)
    requires |a| == |b| <= 3 && Fnv(h, p + a + q) == Fnv(h, p + b + q)
    ensures a == b
  {
    InThree(FnvStep, h, p, a, q);
    InThree(FnvStep, h, p, b, q);
    var h' := Fnv(h, p);
    FnvInjectiveInState(Fnv(h', a), Fnv(h', b), q);
    ShortWindow(h', a, b);
  }

  lemma InThree(step: (Word, Byte) -> Word, h: Word, p: seq<Byte>, a: seq<Byte>, q: seq<Byte>)
    ensures Fold(step, h, p + a + q) == Fold(step, Fold(step, Fold(step, h, p), a), q)
  {
    FoldAppend(step, h, p + a, q);
    FoldAppend(step, h, p, a);
  }

  /** Virtual nodes of one node whose indices have equally many digits, at most three, never share a position. */
  lemma VirtualNodesApart(id: Node, i: nat, j: nat)
    requires |Decimal(i)| == |Decimal(j)| <= 3
    ensures Fnv1aHash(VirtualNode(id, i)) == Fnv1aHash(VirtualNode(id, j)) <==> i == j
  {
    RoundTrip.DecimalDigits(i);
    RoundTrip.DecimalDigits(j);
    NoShortWindowCollision(id + "#", Decimal(i), Decimal(j), "");
    assert VirtualNode(id, i) == id + "#" + Decimal(i) + "";
    assert VirtualNode(id, j) == id + "#" + Decimal(j) + "";
  }

  // ---------- The hash by its recurrence ----------

  lemma {:induction false} ShiftBy(a: nat, n: nat, q: nat, r: nat)
    requires a == q * Pow2(n) + r && r < Pow2(n)
    ensures ShiftRight(a, n) == q
    decreases n
  {
    if n > 0 {
      var t := q * Pow2(n - 1);
      assert q * Pow2(n) == 2 * t;
      assert a / 2 == t + r / 2;
      ShiftBy(a / 2, n - 1, q, r / 2);
    }
  }

  lemma Pow33()
    ensures Pow2(33) == 8589934592
  {
    assert Pow2(8) == 256 && Pow2(16) == 65536 && Pow2(24) == 16777216;
    assert Pow2(32) == 4294967296;
  }

  /** The number whose hexadecimal digits are those of `u` followed by the first `n` of `ds`. */
  function Hex(u: nat, ds: seq<nat>, n: nat): nat
    requires n <= |ds|
  {
    if n == 0 then u else 16 * Hex(u, ds, n - 1) + ds[n - 1]
  }

  function Below(p: nat, w: nat): nat {
    if p >= w then p - w else p
  }

  /** The bits of a digit. */
  function Bit3(p: nat): nat {
    if p >= 8 then 1 else 0
  }

  function Bit2(p: nat): nat {
    if Below(p, 8) >= 4 then 1 else 0
  }

  function Bit1(p: nat): nat {
    if Below(Below(p, 8), 4) >= 2 then 1 else 0
  }

  function Bit0(p: nat): nat {
    Below(Below(Below(p, 8), 4), 2)
  }

  lemma BitsOf(p: nat)
    requires p < 16
    ensures p == 8 * Bit3(p) + 4 * Bit2(p) + 2 * Bit1(p) + Bit0(p)
    ensures Bit3(p) < 2 && Bit2(p) < 2 && Bit1(p) < 2 && Bit0(p) < 2
  {
  }

  /** Exclusive or of two digits, bit by bit. */
  function DigitXor(p: nat, q: nat): nat {
    (if Bit3(p) != Bit3(q) then 8 else 0) + (if Bit2(p) != Bit2(q) then 4 else 0) + (if Bit1(p) != Bit1(q) then 2 else 0)
    + if Bit0(p) != Bit0(q) then 1 else 0
  }

  lemma XorBit(a: nat, b: nat, p: nat, q: nat)
    requires p < 2 && q < 2
    ensures Xor(2 * a + p, 2 * b + q) == 2 * Xor(a, b) + if p != q then 1 else 0
  {
    var x, y := 2 * a + p, 2 * b + q;
    assert x / 2 == a && x % 2 == p && y / 2 == b && y % 2 == q;
    assert Xor(0, 0) == 0;
  }

  lemma TwoBits(a: nat, b: nat, p1: nat, q1: nat, p0: nat, q0: nat)
    requires p1 < 2 && q1 < 2 && p0 < 2 && q0 < 2
    ensures Xor(4 * a + (2 * p1 + p0), 4 * b + (2 * q1 + q0))
            == 4 * Xor(a, b) + (if p1 != q1 then 2 else 0) + if p0 != q0 then 1 else 0
  {
    XorBit(a, b, p1, q1);
    XorBit(2 * a + p1, 2 * b + q1, p0, q0);
    assert 2 * (2 * a + p1) + p0 == 4 * a + (2 * p1 + p0) && 2 * (2 * b + q1) + q0 == 4 * b + (2 * q1 + q0);
  }

  lemma FourBits(a: nat, b: nat, p3: nat, q3: nat, p2: nat, q2: nat, p1: nat, q1: nat, p0: nat, q0: nat)
    requires p3 < 2 && q3 < 2 && p2 < 2 && q2 < 2 && p1 < 2 && q1 < 2 && p0 < 2 && q0 < 2
    ensures Xor(16 * a + (8 * p3 + 4 * p2 + 2 * p1 + p0), 16 * b + (8 * q3 + 4 * q2 + 2 * q1 + q0))
            == 16 * Xor(a, b) + (if p3 != q3 then 8 else 0) + (if p2 != q2 then 4 else 0) + (if p1 != q1 then 2 else 0)
               + if p0 != q0 then 1 else 0
  {
    var c, d := 4 * a + (2 * p3 + p2), 4 * b + (2 * q3 + q2);
    TwoBits(a, b, p3, q3, p2, q2);
    TwoBits(c, d, p1, q1, p0, q0);
    assert 4 * c + (2 * p1 + p0) == 16 * a + (8 * p3 + 4 * p2 + 2 * p1 + p0);
    assert 4 * d + (2 * q1 + q0) == 16 * b + (8 * q3 + 4 * q2 + 2 * q1 + q0);
  }

  lemma XorDigit(a: nat, b: nat, p: nat, q: nat)
    requires p < 16 && q < 16
    ensures Xor(16 * a + p, 16 * b + q) == 16 * Xor(a, b) + DigitXor(p, q)
  {
    BitsOf(p);
    BitsOf(q);
    FourBits(a, b, Bit3(p), Bit3(q), Bit2(p), Bit2(q), Bit1(p), Bit1(q), Bit0(p), Bit0(q));
  }

  /** `rs` is the exclusive or of `ps` and `qs`, digit by digit. */
  predicate DigitsXor(ps: seq<nat>, qs: seq<nat>, rs: seq<nat>) {
    |ps| == |qs| == |rs| && forall i :: 0 <= i < |ps| ==> ps[i] < 16 && qs[i] < 16 && rs[i] == DigitXor(ps[i], qs[i])
  }

  lemma {:induction false} HexXor(u: nat, ps: seq<nat>, qs: seq<nat>, rs: seq<nat>, n: nat)
    requires DigitsXor(ps, qs, rs) && n <= |ps|
    ensures Xor(Hex(u, ps, n), Hex(0, qs, n)) == Hex(u, rs, n)
  {
    if n == 0 {
      XorZero(u);
    } else {
      HexXor(u, ps, qs, rs, n - 1);
      XorDigit(Hex(u, ps, n - 1), Hex(0, qs, n - 1), ps[n - 1], qs[n - 1]);
    }
  }

  function Eight(u: nat, ds: seq<nat>): nat
    requires |ds| == 8
  {
    4294967296 * u + 268435456 * ds[0] + 16777216 * ds[1] + 1048576 * ds[2] + 65536 * ds[3] + 4096 * ds[4] + 256 * ds[5]
    + 16 * ds[6] + ds[7]
  }

  lemma FourDigits(u: nat, ds: seq<nat>, n: nat)
    requires n + 4 <= |ds|
    ensures Hex(u, ds, n + 4) == 65536 * Hex(u, ds, n) + 4096 * ds[n] + 256 * ds[n + 1] + 16 * ds[n + 2] + ds[n + 3]
  {
    assert Hex(u, ds, n + 1) == 16 * Hex(u, ds, n) + ds[n];
    assert Hex(u, ds, n + 2) == 16 * Hex(u, ds, n + 1) + ds[n + 1];
    assert Hex(u, ds, n + 3) == 16 * Hex(u, ds, n + 2) + ds[n + 2];
  }

  lemma EightDigits(u: nat, ds: seq<nat>)
    requires |ds| == 8
    ensures Hex(u, ds, 8) == Eight(u, ds)
  {
    FourDigits(u, ds, 0);
    FourDigits(u, ds, 4);
  }

  /** One turn of the finalizer, from the last digits of its word: the shifted word has no more than eight. */
  lemma MixTurn(k: Word, s: nat, r: nat, x: Word, u: nat, ps: seq<nat>, qs: seq<nat>, rs: seq<nat>)
    requires k == s * 8589934592 + r && r < 8589934592 && DigitsXor(ps, qs, rs) && |ps| == 8
    requires Eight(u, ps) == k && Eight(0, qs) == s && Eight(u, rs) == x
    ensures XorShift(k) == x
  {
    Pow33();
    ShiftBy(k, 33, s, r);
    EightDigits(u, ps);
    EightDigits(0, qs);
    EightDigits(u, rs);
    HexXor(u, ps, qs, rs, 8);
  }

  lemma Mixed(k: Word, x1: Word, t1: Word, x2: Word, t2: Word, x3: Word)
    requires XorShift(k) == x1 && Times(x1, FACTOR_A) == t1 && XorShift(t1) == x2
    requires Times(x2, FACTOR_B) == t2 && XorShift(t2) == x3
    ensures Fmix64(k) == x3
  {
  }

  lemma FirstDigits() returns (ps: seq<nat>, qs: seq<nat>, rs: seq<nat>)
    ensures DigitsXor(ps, qs, rs) && |ps| == 8
    ensures Eight(3421674724, ps) == 14695981039346656037 && Eight(0, qs) == 1710837362 && Eight(3421674724, rs) == 14695981040919080279
  {
    ps := [8, 4, 2, 2, 2, 3, 2, 5];
    qs := [6, 5, 15, 9, 4, 14, 7, 2];
    rs := [14, 1, 13, 11, 6, 13, 5, 7];
  }

  lemma FirstTurn(k: Word)
    requires k == 14695981039346656037
    ensures XorShift(k) == 14695981040919080279
  {
    var ps, qs, rs := FirstDigits();
    MixTurn(k, 1710837362, 2216829733, 14695981040919080279, 3421674724, ps, qs, rs);
  }

  lemma SecondDigits() returns (ps: seq<nat>, qs: seq<nat>, rs: seq<nat>)
    ensures DigitsXor(ps, qs, rs) && |ps| == 8
    ensures Eight(3971628530, ps) == 17058014651253858987 && Eight(0, qs) == 1985814265 && Eight(3971628530, rs) == 17058014651485797458
  {
    ps := [11, 5, 6, 5, 2, 2, 10, 11];
    qs := [7, 6, 5, 13, 1, 14, 15, 9];
    rs := [12, 3, 3, 8, 3, 12, 5, 2];
  }

  lemma SecondTurn(k: Word)
    requires k == 17058014651253858987
    ensures XorShift(k) == 17058014651485797458
  {
    var ps, qs, rs := SecondDigits();
    MixTurn(k, 1985814265, 3043304107, 17058014651485797458, 3971628530, ps, qs, rs);
  }

  lemma ThirdDigits() returns (ps: seq<nat>, qs: seq<nat>, rs: seq<nat>)
    ensures DigitsXor(ps, qs, rs) && |ps| == 8
    ensures Eight(4023394144, ps) == 17280346270844659350 && Eight(0, qs) == 2011697072 && Eight(4023394144, rs) == 17280346270528514342
  {
    ps := [12, 13, 7, 1, 2, 6, 9, 6];
    qs := [7, 7, 14, 8, 0, 15, 11, 0];
    rs := [11, 10, 9, 9, 2, 9, 2, 6];
  }

  lemma ThirdTurn(k: Word)
    requires k == 17280346270844659350
    ensures XorShift(k) == 17280346270528514342
  {
    var ps, qs, rs := ThirdDigits();
    MixTurn(k, 2011697072, 3446744726, 17280346270528514342, 4023394144, ps, qs, rs);
  }

  lemma Factors(x1: Word, x2: Word)
    requires x1 == 14695981040919080279 && x2 == 17058014651485797458
    ensures Times(x1, FACTOR_A) == 17058014651253858987 && Times(x2, FACTOR_B) == 17280346270844659350
  {
    Remainder(x1 * FACTOR_A, 17058014651253858987, 14656892567694280175);
    Remainder(x2 * FACTOR_B, 17280346270844659350, 13113850210438925557);
  }

  lemma BasisMixed(k: Word)
    requires k == 14695981039346656037
    ensures Fmix64(k) == 17280346270528514342
  {
    FirstTurn(k);
    Factors(14695981040919080279, 17058014651485797458);
    SecondTurn(17058014651253858987);
    ThirdTurn(17280346270844659350);
    Mixed(k, 14695981040919080279, 17058014651253858987, 17058014651485797458, 17280346270844659350, 17280346270528514342);
  }

  /** The hash of the empty string, as a number: the offset basis taken through the finalizer. */
  lemma EmptyHash(s: string)
    requires s == ""
    ensures Fnv1aHash(s) == 17280346270528514342 && ShardOf(s) == 6
  {
    assert Bytes(s) == [];
    BasisMixed(Fnv(OFFSET_BASIS, Bytes(s)));
  }

  lemma Unhashed(s: string, h: Word)
    requires h == Fold(FnvStep, OFFSET_BASIS, Bytes(s))
    ensures Unmix64(Fnv1aHash(s)) == h
  {
    FinalizerIsBijective(h);
  }

  lemma OneMoreByte(step: (Word, Byte) -> Word, h: Word, s: string, c: char)
    ensures Fold(step, h, Bytes(s + [c])) == step(Fold(step, h, Bytes(s)), ByteOf(c))
  {
    assert Bytes(s + [c]) == Bytes(s) + [ByteOf(c)];
    FoldAppend(step, h, Bytes(s), [ByteOf(c)]);
    assert [ByteOf(c)][1..] == [];
  }

  lemma StepIs(h: Word, c: char, h': Word)
    requires c as int < 256 && h' == FnvStep(h, ByteOf(c))
    ensures h' == (Xor(h, c as int) * 1099511628211) % 0x1_0000_0000_0000_0000
  {
  }

  /** The hash is FNV-1a seen through the finalizer: undoing the finalizer, the empty string gives the offset basis, and
      one more byte is absorbed by exclusive or and multiplied with the prime, modulo 2^64. */
  lemma HashRecurrence(s: string, c: char, h: Word, h': Word)
    requires c as int < 256 && h == Unmix64(Fnv1aHash(s)) && h' == Unmix64(Fnv1aHash(s + [c]))
    ensures s == "" ==> h == 14695981039346656037
    ensures h' == (Xor(h, c as int) * 1099511628211) % 0x1_0000_0000_0000_0000
  {
    var f, f' := Fold(FnvStep, OFFSET_BASIS, Bytes(s)), Fold(FnvStep, OFFSET_BASIS, Bytes(s + [c]));
    Unhashed(s, f);
    Unhashed(s + [c], f');
    OneMoreByte(FnvStep, OFFSET_BASIS, s, c);
    StepIs(f, c, f');
    assert s == "" ==> Bytes(s) == [];
  }

  lemma ShardIs(k: Key)
    ensures ShardOf(k) < 16 && exists q: nat :: Fnv1aHash(k) == 16 * q + ShardOf(k)
  {
    var h: nat := Fnv1aHash(k);
    assert h == 16 * (h / 16) + h % 16;
  }
}
