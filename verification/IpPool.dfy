/** IPv4 address pools: CIDR bit arithmetic on 32-bit words over a LazyReusePool. */
module IpPools {
  import opened Options
  import opened Basics
  import opened Segments
  import opened LazyReusePools
  import PoolRuns
  import PoolOrders

  // ---------------------------------------------------------------- words and bits

  function Pow2(n: nat): (p: nat)
    ensures p >= 1
  {
    if n == 0 then 1 else 2 * Pow2(n - 1)
  }

  /** The bitwise operators on words of `w` bits, bit by bit. */
  function And(w: nat, a: nat, b: nat): nat {
    if w == 0 then 0 else 2 * And(w - 1, a / 2, b / 2) + if a % 2 == 1 && b % 2 == 1 then 1 else 0
  }

  function Or(w: nat, a: nat, b: nat): nat {
    if w == 0 then 0 else 2 * Or(w - 1, a / 2, b / 2) + if a % 2 == 1 || b % 2 == 1 then 1 else 0
  }

  function Not(w: nat, a: nat): nat {
    if w == 0 then 0 else 2 * Not(w - 1, a / 2) + 1 - a % 2
  }

  /** The word of `w` bits that ends in `k` zeros after ones, as a CIDR mask does. */
  function Mask(w: nat, k: nat): nat
    requires k <= w
  {
    if w == 0 then 0 else if k > 0 then 2 * Mask(w - 1, k - 1) else 2 * Mask(w - 1, 0) + 1
  }

  lemma DoubleMod(q: nat, m: nat, r: nat)
    requires m > 0 && r < 2
    ensures (2 * q + r) % (2 * m) == 2 * (q % m) + r
  {
    var d, e := q / m, q % m;
    assert q == d * m + e;
    assert 2 * q + r == d * (2 * m) + (2 * e + r);
    ModUnique(2 * q + r, 2 * m, d, 2 * e + r);
  }

  lemma ModUnique(x: int, m: int, d: int, e: int)
    requires m > 0 && x == d * m + e && 0 <= e < m
    ensures x % m == e
  {
    var d', e' := x / m, x % m;
    assert x == d' * m + e';
    assert (d - d') * m == e' - e;
    assert (d' - d) * m == e - e';
    if d > d' {
      MulAtLeast(d - d', m);
    } else if d < d' {
      MulAtLeast(d' - d, m);
    }
  }

  lemma MulAtLeast(x: int, m: int)
    requires x >= 1 && m > 0
    ensures x * m >= m
  {
  }

  lemma HalfMod(a: nat, m: nat, p: nat)
    requires m > 0 && p == 2 * m
    ensures a % p == 2 * (a / 2 % m) + a % 2
    ensures a == 2 * (a / 2) + a % 2
  {
    DoubleMod(a / 2, m, a % 2);
  }

  lemma OddHalf(m: nat)
    requires m > 0
    ensures (2 * m - 1) / 2 == m - 1 && (2 * m - 1) % 2 == 1
  {
  }

  /** One bit of the recursive definitions. */
  lemma BitSteps(w: nat, k: nat, a: nat)
    requires w > 0 && k <= w
    ensures Mask(w, k) / 2 == Mask(w - 1, if k > 0 then k - 1 else 0)
    ensures Mask(w, k) % 2 == if k > 0 then 0 else 1
    ensures And(w, a, Mask(w, k)) == 2 * And(w - 1, a / 2, Mask(w, k) / 2) + if a % 2 == 1 && k == 0 then 1 else 0
    ensures k > 0 ==> Pow2(k) == 2 * Pow2(k - 1)
    ensures Pow2(w) == 2 * Pow2(w - 1)
  {
  }

  /** Masking clears the host bits. */
  lemma {:induction false} AndMask(w: nat, k: nat, a: nat)
    requires k <= w && a < Pow2(w)
    ensures And(w, a, Mask(w, k)) == a - a % Pow2(k)
    ensures a % Pow2(k) <= a
  {
    if w > 0 {
      BitSteps(w, k, a);
      hide And, Mask, Pow2;
      var q := a / 2;
      if k > 0 {
        AndMask(w - 1, k - 1, q);
        AndMaskStep(a, Pow2(k - 1), Pow2(k), And(w - 1, q, Mask(w - 1, k - 1)));
      } else {
        AndMask(w - 1, 0, q);
        PowZero(a);
        PowZero(q);
      }
    }
  }

  lemma AndMaskStep(a: nat, m: nat, p: nat, o: nat)
    requires m > 0 && p == 2 * m && o == a / 2 - a / 2 % m
    ensures 2 * o == a - a % p && a % p <= a
  {
    HalfMod(a, m, p);
  }

  lemma PowAtLeast(k: nat)
    ensures Pow2(k) >= 1 && (k > 0 <==> Pow2(k) >= 2)
  {
  }

  lemma PowZero(a: nat)
    ensures Pow2(0) == 1 && a % Pow2(0) == 0
  {
  }

  lemma {:induction false} NotMask(w: nat, k: nat)
    requires k <= w
    ensures Not(w, Mask(w, k)) == Pow2(k) - 1
  {
    hide Not, Mask, Pow2, And;
    if w == 0 {
      NoWord();
    } else {
      NotMask(w - 1, if k > 0 then k - 1 else 0);
      BitSteps(w, k, 0);
      NotSteps(w, Mask(w, k));
      PowZero(0);
    }
  }

  lemma NotSteps(w: nat, a: nat)
    requires w > 0
    ensures Not(w, a) == 2 * Not(w - 1, a / 2) + 1 - a % 2
  {
  }

  lemma NoWord()
    ensures Not(0, Mask(0, 0)) == Pow2(0) - 1
  {
  }

  lemma OrSteps(w: nat, a: nat, b: nat)
    requires w > 0
    ensures Or(w, a, b) == 2 * Or(w - 1, a / 2, b / 2) + if a % 2 == 1 || b % 2 == 1 then 1 else 0
  {
  }

  lemma {:induction false} OrOnes(w: nat, k: nat, a: nat)
    requires k <= w
    ensures Or(w, a, Pow2(k) - 1) == And(w, a, Mask(w, k)) + Pow2(k) - 1
  {
    if w > 0 {
      BitSteps(w, k, a);
      OrSteps(w, a, Pow2(k) - 1);
      if k > 0 {
        OrOnes(w - 1, k - 1, a / 2);
        OddHalf(Pow2(k - 1));
      } else {
        OrOnes(w - 1, 0, a / 2);
      }
      hide Or, Pow2, And, Mask;
    }
  }

  /** Setting the inverted mask sets the host bits. */
  lemma OrNotMask(w: nat, k: nat, a: nat)
    requires k <= w && a < Pow2(w)
    ensures Or(w, a, Not(w, Mask(w, k))) == a - a % Pow2(k) + Pow2(k) - 1
  {
    hide Or, And, Mask, Not, Pow2;
    NotMask(w, k);
    OrOnes(w, k, a);
    AndMask(w, k, a);
  }

  // ---------------------------------------------------------------- subnets

  datatype Subnet = Subnet(addr: seq<Byte>, prefix: nat) {
    predicate Ok() { |addr| == 4 && prefix <= 32 }

    /** The address as a word. */
    function Base(): nat
      requires Ok()
    {
      ToWord(addr)
    }

    function MaskWord(): nat
      requires Ok()
    {
      Mask(32, 32 - prefix)
    }

    /** The address has the network bits of the subnet. */
    predicate Contains(x: nat)
      requires Ok()
    {
      x < Pow2(32) && And(32, x, MaskWord()) == And(32, Base(), MaskWord())
    }
  }

  /** calcAddrRange: the lowest and the highest address, or None for an invalid mask. */
  function CalcAddrRange(n: Subnet): Option<(nat, nat)>
    requires n.Ok()
  {
    var lo := And(32, n.Base(), n.MaskWord());
    var hi := Or(32, n.Base(), Not(32, n.MaskWord()));
    if lo >= hi then None else Some((lo, hi))
  }

  lemma BlockOf(x: nat, y: nat, m: nat)
    requires m > 0
    ensures x - x % m == y - y % m <==> y - y % m <= x <= y - y % m + m - 1
  {
    var dx, dy := x / m, y / m;
    assert x == dx * m + x % m && y == dy * m + y % m;
    if y - y % m <= x <= y - y % m + m - 1 {
      ModUnique(x, m, dy, x - dy * m);
    }
  }

  /** For every prefix length the range is exactly the subnet, with 2^(32-n) members; it is refused
      for the single address of /32 alone. */
  lemma RangeIsSubnet(n: Subnet, x: nat)
    requires n.Ok()
    ensures CalcAddrRange(n).None? <==> n.prefix == 32
    ensures CalcAddrRange(n).Some? ==>
              var (lo, hi) := CalcAddrRange(n).value;
              && hi - lo + 1 == Pow2(32 - n.prefix)
              && (n.Contains(x) <==> lo <= x <= hi)
  {
    hide And, Or, Not, Mask, Pow2;
    var k := 32 - n.prefix;
    PowAtLeast(k);
    Pow2Of32();
    var base := n.Base();
    AndMask(32, k, base);
    OrNotMask(32, k, base);
    AlignedBelow(base, 32, k);
    if x < Pow2(32) {
      AndMask(32, k, x);
      BlockOf(x, base, Pow2(k));
    }
  }

  /** An aligned block that starts below 2^w ends below 2^w. */
  lemma {:induction false} AlignedBelow(a: nat, w: nat, k: nat)
    requires k <= w && a < Pow2(w)
    ensures a - a % Pow2(k) + Pow2(k) <= Pow2(w)
  {
    if k > 0 {
      AlignedBelow(a / 2, w - 1, k - 1);
      DoubleMod(a / 2, Pow2(k - 1), a % 2);
      assert a == 2 * (a / 2) + a % 2;
    }
  }

  // ---------------------------------------------------------------- addresses as bytes

  /** Big-endian reading of the first four bytes. */
  function ToWord(ip: seq<Byte>): (v: nat)
    requires |ip| >= 4
    ensures v < 0x1_0000_0000
  {
    var (a: int, b: int, c: int, d: int) := (ip[0], ip[1], ip[2], ip[3]);
    a * 0x100_0000 + b * 0x1_0000 + c * 0x100 + d
  }

  function ToIP(v: int): (ip: seq<Byte>)
    ensures |ip| == 4
  {
    [v / 0x100_0000 % 256, v / 0x1_0000 % 256, v / 0x100 % 256, v % 256]
  }

  lemma WordRoundTrip(v: int)
    requires 0 <= v < 0x1_0000_0000
    ensures ToWord(ToIP(v)) == v
  {
    assert v / 0x1_0000 == v / 0x100 / 256 && v / 0x100_0000 == v / 0x100 / 256 / 256;
  }

  lemma IPRoundTrip(ip: seq<Byte>)
    requires |ip| == 4
    ensures ToIP(ToWord(ip)) == ip
  {
    var v := ToWord(ip);
    var (a: int, b: int, c: int) := (ip[0], ip[1], ip[2]);
    assert v / 256 == a * 0x1_0000 + b * 0x100 + c;
    assert v / 0x1_0000 == a * 0x100 + b;
    assert v / 0x100_0000 == a;
  }

  /** Bit `i` of an address, counted from the top bit of its first byte. */
  function BitOf(a: seq<Byte>, i: nat): int
    requires |a| == 4 && i < 32
  {
    a[i / 8] / Pow2(7 - i % 8) % 2
  }

  /** Two addresses agree on their first `n` bits. */
  predicate SamePrefix(a: seq<Byte>, b: seq<Byte>, n: nat)
    requires |a| == 4 && |b| == 4 && n <= 32
  {
    forall i :: 0 <= i < n ==> BitOf(a, i) == BitOf(b, i)
  }

  lemma {:induction false} PowAdd(a: nat, b: nat)
    ensures Pow2(a + b) == Pow2(a) * Pow2(b)
  {
    if a > 0 {
      PowAdd(a - 1, b);
    }
  }

  lemma DivDiv(x: nat, p: nat, q: nat)
    requires p > 0 && q > 0
    ensures p * q > 0 && x / (p * q) == x / p / q
  {
    var d, r := x / p, x % p;
    var e, t := d / q, d % q;
    MulAtLeast(q, p);
    assert x == d * p + r && d == e * q + t;
    Remainder(p, q, r, t);
    assert x == e * (p * q) + (t * p + r);
    DivUnique(x, p * q, e, t * p + r);
  }

  lemma Remainder(p: nat, q: nat, r: nat, t: nat)
    requires r < p && t < q
    ensures t * p + r < p * q
  {
    assert (t + 1) * p <= q * p by {
      assert q * p - (t + 1) * p == (q - t - 1) * p;
    }
  }

  lemma DivUnique(x: int, m: int, d: int, e: int)
    requires m > 0 && x == d * m + e && 0 <= e < m
    ensures x / m == d
  {
    ModUnique(x, m, d, e);
    assert (x / m) * m == d * m;
  }

  /** Bit `i` from the top of a word. */
  function WordBit(x: nat, i: nat): int
    requires i < 32
  {
    x / Pow2(31 - i) % 2
  }

  predicate SameBits(x: nat, y: nat, n: nat)
    requires n <= 32
  {
    forall i :: 0 <= i < n ==> WordBit(x, i) == WordBit(y, i)
  }

  lemma SameBitsStep(x: nat, y: nat, n: nat)
    requires n < 32
    ensures SameBits(x, y, n + 1) <==> SameBits(x, y, n) && WordBit(x, n) == WordBit(y, n)
  {
    hide WordBit;
  }

  /** A word without its last `k` bits. */
  function Top(x: nat, k: nat): int {
    x / Pow2(k)
  }

  /** Words agree above their last `k` bits iff their bits down to there are the same. */
  lemma {:induction false} TopBits(x: nat, y: nat, k: nat)
    requires k <= 32 && x < Pow2(32) && y < Pow2(32)
    ensures Top(x, k) == Top(y, k) <==> SameBits(x, y, 32 - k)
    decreases 32 - k
  {
    hide Pow2, SameBits, WordBit, Top;
    if k == 32 {
      NoTop(x);
      NoTop(y);
      NoBits(x, y);
    } else {
      TopBits(x, y, k + 1);
      SameBitsStep(x, y, 31 - k);
      TopStep(x, k);
      TopStep(y, k);
      Halves(Top(x, k), Top(y, k));
    }
  }

  lemma NoTop(x: nat)
    requires x < Pow2(32)
    ensures Top(x, 32) == 0
  {
    hide Pow2;
    DivUnique(x, Pow2(32), 0, x);
  }

  lemma TopStep(x: nat, k: nat)
    requires k < 32
    ensures Top(x, k + 1) == Top(x, k) / 2 && WordBit(x, 31 - k) == Top(x, k) % 2
  {
    hide Pow2;
    PowDouble(k);
    DivDiv(x, Pow2(k), 2);
  }

  lemma NoBits(x: nat, y: nat)
    ensures SameBits(x, y, 0)
  {
  }

  lemma PowDouble(k: nat)
    ensures Pow2(k + 1) == Pow2(k) * 2
  {
  }

  lemma Halves(a: int, b: int)
    ensures a == b <==> a / 2 == b / 2 && a % 2 == b % 2
  {
  }

  /** A byte below higher ones: its bits are those of the word at its place. */
  lemma ByteBit(h: nat, b: Byte, s: nat)
    requires s <= 7
    ensures (h * 256 + b) / Pow2(s) % 2 == b / Pow2(s) % 2
  {
    PowAdd(8 - s, s);
    PowDouble(7 - s);
    assert Pow2(8) == 256;
    hide Pow2;
    EvenAbove(h, b, Pow2(s), Pow2(7 - s));
  }

  lemma EvenAbove(h: nat, b: nat, p: nat, q: nat)
    requires p > 0 && q * 2 * p == 256
    ensures (h * 256 + b) / p % 2 == b / p % 2
  {
    var d, e, z := b / p, b % p, h * q;
    assert b == d * p + e;
    Distribute(h, q, p, d);
    DivUnique(h * 256 + b, p, 2 * z + d, e);
    DropEven(z, d);
  }

  lemma DropEven(z: int, d: int)
    ensures (2 * z + d) % 2 == d % 2
  {
  }

  lemma Distribute(h: nat, q: nat, p: nat, d: nat)
    requires q * 2 * p == 256
    ensures (2 * (h * q) + d) * p == h * 256 + d * p
  {
    var z := h * q;
    assert z * p == h * (q * p);
    assert (2 * z + d) * p == 2 * (z * p) + d * p;
    assert q * 2 * p == 2 * (q * p);
    assert h * (2 * (q * p)) == 2 * (h * (q * p));
  }

  /** The word of an address has its bits, byte by byte. */
  lemma WordHasBits(a: seq<Byte>, i: nat)
    requires |a| == 4 && i < 32
    ensures WordBit(ToWord(a), i) == BitOf(a, i)
  {
    var m, s := i / 8, 7 - i % 8;
    var v, low := ToWord(a), Pow2(8 * (3 - m));
    PowAdd(8 * (3 - m), s);
    assert 31 - i == 8 * (3 - m) + s;
    DivDiv(v, low, Pow2(s));
    var h := HighPart(a, m);
    ByteBit(h, a[m], s);
  }

  /** Above the bytes behind byte `m` the word ends in byte `m`. */
  lemma HighPart(a: seq<Byte>, m: nat) returns (h: nat)
    requires |a| == 4 && m < 4
    ensures ToWord(a) / Pow2(8 * (3 - m)) == h * 256 + a[m]
  {
    hide Pow2;
    PowBytes();
    var (b0: int, b1: int, b2: int, b3: int) := (a[0], a[1], a[2], a[3]);
    if m == 0 {
      h := 0;
      DropOne(b0, b1, b2, b3);
    } else if m == 1 {
      h := b0;
      DropTwo(b0, b1, b2, b3);
    } else if m == 2 {
      h := b0 * 256 + b1;
      DropThree(b0, b1, b2, b3);
    } else {
      h := (b0 * 256 + b1) * 256 + b2;
      assert 8 * (3 - m) == 0;
    }
  }

  lemma DropOne(a: int, b: int, c: int, d: int)
    requires 0 <= b < 256 && 0 <= c < 256 && 0 <= d < 256
    ensures (a * 0x100_0000 + b * 0x1_0000 + c * 0x100 + d) / 0x100_0000 == a
  {
  }

  lemma DropTwo(a: int, b: int, c: int, d: int)
    requires 0 <= b < 256 && 0 <= c < 256 && 0 <= d < 256
    ensures (a * 0x100_0000 + b * 0x1_0000 + c * 0x100 + d) / 0x1_0000 == a * 256 + b
  {
  }

  lemma DropThree(a: int, b: int, c: int, d: int)
    requires 0 <= b < 256 && 0 <= c < 256 && 0 <= d < 256
    ensures (a * 0x100_0000 + b * 0x1_0000 + c * 0x100 + d) / 0x100 == (a * 256 + b) * 256 + c
  {
  }

  lemma PowBytes()
    ensures Pow2(0) == 1 && Pow2(8) == 0x100 && Pow2(16) == 0x1_0000 && Pow2(24) == 0x100_0000
  {
  }

  /** An address belongs to the subnet iff its first `prefix` bits are those of the subnet's address. */
  lemma SubnetIsPrefix(n: Subnet, a: seq<Byte>)
    requires n.Ok() && |a| == 4
    ensures n.Contains(ToWord(a)) <==> SamePrefix(a, n.addr, n.prefix)
  {
    hide Pow2, And, Mask, ToWord, BitOf, WordBit;
    var k, x, y := 32 - n.prefix, ToWord(a), n.Base();
    Pow2Of32();
    AndMask(32, k, x);
    AndMask(32, k, y);
    SameBlock(x, y, Pow2(k));
    TopBits(x, y, k);
    forall i | 0 <= i < 32 ensures WordBit(x, i) == BitOf(a, i) && WordBit(y, i) == BitOf(n.addr, i) {
      WordHasBits(a, i);
      WordHasBits(n.addr, i);
    }
  }

  lemma SameBlock(x: nat, y: nat, m: nat)
    requires m > 0
    ensures x - x % m == y - y % m <==> x / m == y / m
  {
    assert x == x / m * m + x % m && y == y / m * m + y % m;
    if x - x % m == y - y % m {
      DivUnique(x - x % m, m, x / m, 0);
      DivUnique(y - y % m, m, y / m, 0);
    }
  }

  // ---------------------------------------------------------------- the pool

  class IPPool {
    const subnet: Subnet
    const pool: LazyReusePool

    ghost predicate Valid()
      reads this, pool, pool.repr
    {
      && pool.Valid() && subnet.Ok()
      && CalcAddrRange(subnet) == Some((pool.first, pool.last))
      && pool.last < 0x1_0000_0000
    }

    constructor (subnet: Subnet, pool: LazyReusePool)
      ensures this.subnet == subnet && this.pool == pool
    {
      this.subnet, this.pool := subnet, pool;
    }

    /** NewIPPool: the range of the subnet without its network and its broadcast address. */
    static method New(subnet: Subnet) returns (p: IPPool?)
      requires subnet.Ok()
      ensures p == null <==> subnet.prefix == 32
      ensures p != null ==>
                && p.Valid() && p.subnet == subnet
                && fresh(p) && fresh(p.pool) && fresh(p.pool.repr)
                && p.pool.Value() == Start(p.pool.first, p.pool.last)
    {
      RangeIsSubnet(subnet, 0);
      var range := CalcAddrRange(subnet);
      if range.None? {
        return null;
      }
      var (lo, hi) := range.value;
      WordBound(subnet, hi);
      var pool := WithoutEnds(lo, hi);
      p := new IPPool(subnet, pool);
    }

    /** A pool for `[lo,hi]` from which both ends are reserved. */
    static method WithoutEnds(lo: int, hi: int) returns (pool: LazyReusePool)
      requires lo < hi
      ensures pool.Valid() && fresh(pool) && fresh(pool.repr)
      ensures pool.first == lo && pool.last == hi && pool.Value() == Start(lo, hi)
    {
      hide PoolRuns.Apply, FreeSet, Separate, Total, ReserveSegs, Within, LazyReusePool.Linked;
      hide PoolRuns.Flatten, PoolOrders.Outside, LazyReusePool.Queue;
      pool := new LazyReusePool(lo, hi);
      var okLo := pool.Reserve(lo, lo);
      var okHi := pool.Reserve(hi, hi);
    }

    /** Allocate with or without a requested address. A request of fewer than four bytes panics. */
    method Allocate(request: Option<seq<Byte>>) returns (ip: Option<seq<Byte>>, panics: bool)
      requires Valid()
      modifies pool, pool.repr
      ensures Valid() && fresh(pool.repr - old(pool.repr))
      ensures panics <==> request.Some? && |request.value| < 4
      ensures panics ==> ip.None? && pool.Value() == old(pool.Value())
      ensures !panics ==>
              var op := if request.Some? then PoolRuns.Use(ToWord(request.value)) else PoolRuns.Allocate;
              && PoolRuns.Apply(old(pool.Value()), op).0 == pool.Value()
              && (ip.None? <==> PoolRuns.Apply(old(pool.Value()), op).1 == PoolRuns.Refused)
              && (ip.Some? ==> |ip.value| == 4)
              && (ip.Some? ==> PoolRuns.Apply(old(pool.Value()), op).1 == PoolRuns.Granted(ToWord(ip.value)))
      ensures ip.Some? && request.Some? ==> ip.value == request.value[..4]
      ensures ip.Some? ==> |ip.value| == 4 && SamePrefix(ip.value, subnet.addr, subnet.prefix)
    {
      hide PoolRuns.Apply, FreeSet, Separate, Total, LazyReusePool.Linked, CalcAddrRange, Subnet.Ok, ToWord, ToIP;
      hide PoolRuns.Flatten, PoolOrders.RemoveFirst, LazyReusePool.Queue, SamePrefix;
      var allocVal: int;
      var ok: bool;
      ghost var before := pool.Value();
      if request.Some? {
        if |request.value| < 4 {
          return None, true;
        }
        allocVal := ToWord(request.value);
        ok := pool.Use(allocVal);
        if !ok {
          return None, false;
        }
        FirstFour(request.value);
        IPRoundTrip(request.value[..4]);
      } else {
        allocVal, ok := pool.Allocate();
        if !ok {
          return None, false;
        }
        PoolRuns.GrantInRange(before, PoolRuns.Allocate, allocVal);
      }
      WordRoundTrip(allocVal);
      GrantedInSubnet(before, if request.Some? then PoolRuns.Use(allocVal) else PoolRuns.Allocate, allocVal, subnet);
      return Some(ToIP(allocVal)), false;
    }

    /** Reallocate: the address back, and whether it was already in use. A request of fewer than four bytes
        panics. */
    method Reallocate(request: Option<seq<Byte>>) returns (ip: Option<seq<Byte>>, inUsed: bool, panics: bool)
      requires Valid()
      modifies pool, pool.repr
      ensures Valid() && fresh(pool.repr - old(pool.repr))
      ensures panics <==> request.Some? && |request.value| < 4
      ensures request.None? || panics ==> ip.None? && !inUsed && pool.Value() == old(pool.Value())
      ensures request.Some? && !panics ==>
                && ip == Some(request.value[..4])
                && (inUsed <==> ToWord(request.value) !in FreeSet(old(pool.segs)))
                && pool.Value() == PoolRuns.Apply(old(pool.Value()), PoolRuns.Use(ToWord(request.value))).0
                && (!inUsed ==> SamePrefix(request.value[..4], subnet.addr, subnet.prefix))
    {
      if request.None? {
        return None, false, false;
      }
      if |request.value| < 4 {
        return None, false, true;
      }
      hide PoolRuns.Apply, FreeSet, Separate, Total, LazyReusePool.Linked, CalcAddrRange, Subnet.Ok, ToWord, ToIP;
      hide PoolRuns.Flatten, PoolOrders.RemoveFirst, LazyReusePool.Queue, SamePrefix;
      ghost var before := pool.Value();
      var allocVal := ToWord(request.value);
      var ok := pool.Use(allocVal);
      FirstFour(request.value);
      IPRoundTrip(request.value[..4]);
      if ok {
        GrantedInSubnet(before, PoolRuns.Use(allocVal), allocVal, subnet);
      }
      return Some(ToIP(allocVal)), !ok, false;
    }

    method Exclude(other: IPPool) returns (ok: bool)
      requires Valid() && other.Valid()
      modifies pool, pool.repr
      ensures Valid() && fresh(pool.repr - old(pool.repr))
      ensures PoolRuns.Apply(old(pool.Value()), PoolRuns.Reserve(other.pool.first, other.pool.last))
           == (pool.Value(), if ok then PoolRuns.Accepted else PoolRuns.Refused)
      ensures ok ==> forall x :: other.subnet.Contains(x) ==> x !in FreeSet(pool.segs)
    {
      ok := pool.Reserve(other.pool.first, other.pool.last);
      if ok {
        forall x | other.subnet.Contains(x) ensures x !in FreeSet(pool.segs) {
          RangeIsSubnet(other.subnet, x);
        }
      }
    }

    method Release(ip: seq<Byte>) returns (ok: bool)
      requires Valid()
      modifies pool, pool.repr
      ensures Valid() && fresh(pool.repr - old(pool.repr))
      ensures |ip| < 4 ==> !ok && pool.Value() == old(pool.Value())
      ensures |ip| >= 4 ==>
                PoolRuns.Apply(old(pool.Value()), PoolRuns.Free(ToWord(ip))) ==
                (pool.Value(), if ok then PoolRuns.Accepted else PoolRuns.Refused)
      ensures |ip| >= 4 ==>
                (ok ==> SamePrefix(ip[..4], subnet.addr, subnet.prefix))
                && (SamePrefix(ip[..4], subnet.addr, subnet.prefix) && ToWord(ip) !in FreeSet(old(pool.segs)) ==> ok)
    {
      if |ip| < 4 {
        return false;
      }
      hide FreeSet, Separate, Total, FreeSegs, LazyReusePool.Linked, CalcAddrRange, Subnet.Contains, ToWord, SamePrefix;
      FirstFour(ip);
      RangeIsSubnet(subnet, ToWord(ip));
      SubnetIsPrefix(subnet, ip[..4]);
      ok := pool.Free(ToWord(ip));
    }
  }

  /** The bytes of a granted value agree with the subnet on its first `prefix` bits. */
  lemma GrantedInSubnet(p: PoolRuns.Pool, op: PoolRuns.Op, v: int, n: Subnet)
    requires p.Ok() && PoolRuns.Apply(p, op).1 == PoolRuns.Granted(v)
    requires n.Ok() && CalcAddrRange(n) == Some((p.first, p.last)) && 0 <= p.first && p.last < 0x1_0000_0000
    ensures SamePrefix(ToIP(v), n.addr, n.prefix)
  {
    hide PoolRuns.Apply, CalcAddrRange, Subnet.Contains, SamePrefix, ToIP, ToWord;
    PoolRuns.GrantInRange(p, op, v);
    RangeIsSubnet(n, v);
    WordRoundTrip(v);
    SubnetIsPrefix(n, ToIP(v));
  }

  lemma FirstFour(ip: seq<Byte>)
    requires |ip| >= 4
    ensures ToWord(ip[..4]) == ToWord(ip)
  {
  }

  lemma WordBound(n: Subnet, hi: nat)
    requires n.Ok() && CalcAddrRange(n).Some? && hi == CalcAddrRange(n).value.1
    ensures hi < 0x1_0000_0000
  {
    RangeIsSubnet(n, hi);
    Pow2Of32();
  }

  lemma Pow2Of32()
    ensures Pow2(32) == 0x1_0000_0000
  {
    assert Pow2(8) == 256;
    assert Pow2(16) == 0x1_0000;
    assert Pow2(24) == 0x100_0000;
  }

  /** The pool value that NewIPPool hands out. */
  ghost function Start(lo: int, hi: int): PoolRuns.Pool {
    PoolRuns.Apply(PoolRuns.Apply(PoolRuns.NewPool(lo, hi), PoolRuns.Reserve(lo, lo)).0, PoolRuns.Reserve(hi, hi)).0
  }

  lemma StartOfRun(lo: int, hi: int, ops: seq<PoolRuns.Op>)
    requires lo <= hi && |ops| >= 2 && ops[0] == PoolRuns.Reserve(lo, lo) && ops[1] == PoolRuns.Reserve(hi, hi)
    ensures PoolRuns.PoolAt(PoolRuns.NewPool(lo, hi), ops, 2) == Start(lo, hi)
    ensures PoolRuns.ReplyAt(PoolRuns.NewPool(lo, hi), ops, 0) == PoolRuns.Accepted
    ensures PoolRuns.ReplyAt(PoolRuns.NewPool(lo, hi), ops, 1) == PoolRuns.Accepted
  {
    hide ReserveSegs;
    assert PoolRuns.PoolAt(PoolRuns.NewPool(lo, hi), ops, 1)
        == PoolRuns.Apply(PoolRuns.NewPool(lo, hi), PoolRuns.Reserve(lo, lo)).0;
  }

  /** In every run whose clients release only addresses they hold and exclude no held address, each
      granted address belongs to the subnet and is neither its network nor its broadcast address. */
  lemma NeverGrantsNetworkOrBroadcast(n: Subnet, calls: seq<PoolRuns.Op>, j: nat, v: int)
    requires n.Ok() && CalcAddrRange(n).Some?
    requires var (lo, hi) := CalcAddrRange(n).value;
             var ops := [PoolRuns.Reserve(lo, lo), PoolRuns.Reserve(hi, hi)] + calls;
             && PoolRuns.PoliteRun(lo, hi, ops) && 2 <= j < |ops|
             && PoolRuns.ReplyAt(PoolRuns.NewPool(lo, hi), ops, j) == PoolRuns.Granted(v)
    ensures var (lo, hi) := CalcAddrRange(n).value;
            var ops := [PoolRuns.Reserve(lo, lo), PoolRuns.Reserve(hi, hi)] + calls;
            PoolRuns.PoolAt(PoolRuns.NewPool(lo, hi), ops, 2) == Start(lo, hi)
    ensures var (lo, hi) := CalcAddrRange(n).value;
            lo < v < hi && n.Contains(v)
  {
    var (lo, hi) := CalcAddrRange(n).value;
    var ops := [PoolRuns.Reserve(lo, lo), PoolRuns.Reserve(hi, hi)] + calls;
    StartOfRun(lo, hi, ops);
    hide PoolRuns.Partition, PoolRuns.PoolAt, Separate, FreeSet, Pow2, And, Or, Not, Mask;
    PoolRuns.RunKeepsPartition(lo, hi, ops, 1);
    PoolRuns.NoReservedGrant(lo, hi, ops, 0, j, lo, lo, v);
    PoolRuns.NoReservedGrant(lo, hi, ops, 1, j, hi, hi, v);
    PoolRuns.GrantsInRange(lo, hi, ops, j, v);
    RangeIsSubnet(n, v);
  }

  /** In every run, by any clients, an end of the range is granted only after it was freed. */
  lemma EndNeedsFree(lo: nat, hi: nat, calls: seq<PoolRuns.Op>, j: nat, v: int)
    requires lo <= hi && j < |calls| && PoolRuns.ReplyAt(Start(lo, hi), calls, j) == PoolRuns.Granted(v)
    ensures lo <= v <= hi
    ensures lo < v < hi || exists k :: 0 <= k < j && calls[k] == PoolRuns.Free(v)
  {
    hide PoolRuns.PoolAt, PoolRuns.Apply, FreeSet;
    var front := [PoolRuns.Reserve(lo, lo), PoolRuns.Reserve(hi, hi)];
    var ops, p := front + calls, PoolRuns.NewPool(lo, hi);
    StartOfRun(lo, hi, front);
    StartOfRun(lo, hi, ops);
    PoolRuns.PoolAtConcat(p, front, calls, j);
    PoolRuns.GrantsInRange(lo, hi, ops, j + 2, v);
    if v == lo || v == hi {
      FreedBefore(p, ops, if v == lo then 0 else 1, j, v, calls);
    }
  }

  lemma FreedBefore(p: PoolRuns.Pool, ops: seq<PoolRuns.Op>, i: nat, j: nat, v: int, calls: seq<PoolRuns.Op>)
    requires p.Ok() && i < 2 && j < |calls| && |ops| == |calls| + 2 && ops[2..] == calls
    requires ops[i] == PoolRuns.Reserve(v, v) && PoolRuns.ReplyAt(p, ops, i) == PoolRuns.Accepted
    requires (i == 0 ==> !ops[1].Free?) && PoolRuns.ReplyAt(p, ops, j + 2) == PoolRuns.Granted(v)
    ensures exists k :: 0 <= k < j && calls[k] == PoolRuns.Free(v)
  {
    hide PoolRuns.PoolAt, PoolRuns.Apply, PoolRuns.ReplyAt;
    PoolRuns.ReservedGrantNeedsFree(p, ops, i, j + 2, v, v, v);
    var k :| i < k < j + 2 && ops[k] == PoolRuns.Free(v);
    assert ops[k] == calls[k - 2];
  }

  /** In every run, by any clients, the network or broadcast address is granted only after somebody
      released it, and every granted address belongs to the subnet. */
  lemma EndAddressNeedsRelease(n: Subnet, lo: nat, hi: nat, calls: seq<PoolRuns.Op>, j: nat, v: int)
    requires n.Ok() && CalcAddrRange(n) == Some((lo, hi)) && lo <= hi && j < |calls|
    requires PoolRuns.ReplyAt(Start(lo, hi), calls, j) == PoolRuns.Granted(v)
    ensures lo <= v <= hi && n.Contains(v)
    ensures lo < v < hi || exists k :: 0 <= k < j && calls[k] == PoolRuns.Free(v)
  {
    hide CalcAddrRange, Subnet.Ok, Subnet.Contains, PoolRuns.ReplyAt, Start;
    EndNeedsFree(lo, hi, calls, j, v);
    RangeIsSubnet(n, v);
  }
}
