/** The round-robin id generator: a cursor over `[0,N)` that skips the offsets in use. */
module IdGenerators {
  import opened Options
  import opened Basics

  /** The generator as a value: N offsets, the cursor and the offsets in use. */
  datatype Gen = Gen(size: nat, offset: int, used: set<int>) {
    predicate Ok() {
      0 <= offset < size && forall x :: x in used ==> 0 <= x < size
    }
  }

  /** The offset `k` places behind `from`, in cyclic order. */
  function Cyclic(size: nat, from: int, k: int): int {
    if from + k < size then from + k else from + k - size
  }

  /** How far the cursor is from the first unused offset; None when all are in use. */
  function Scan(g: Gen, k: nat): Option<nat>
    requires g.Ok() && k <= g.size
    decreases g.size - k
  {
    if k == g.size then None
    else if Cyclic(g.size, g.offset, k) !in g.used then Some(k)
    else Scan(g, k + 1)
  }

  /** `d` is the distance to the first unused offset. */
  predicate FirstUnused(g: Gen, d: nat) {
    && d < g.size && Cyclic(g.size, g.offset, d) !in g.used
    && forall k :: 0 <= k < d ==> Cyclic(g.size, g.offset, k) in g.used
  }

  lemma {:induction false} ScanFindsFirst(g: Gen, k: nat)
    requires g.Ok() && k <= g.size
    requires forall i :: 0 <= i < k ==> Cyclic(g.size, g.offset, i) in g.used
    ensures Scan(g, k).Some? ==> FirstUnused(g, Scan(g, k).value)
    ensures Scan(g, k).None? <==> forall x :: 0 <= x < g.size ==> x in g.used
    decreases g.size - k
  {
    if k == g.size {
      forall x | 0 <= x < g.size ensures x in g.used {
        assert Cyclic(g.size, g.offset, if x < g.offset then x - g.offset + g.size else x - g.offset) in g.used;
      }
    } else if Cyclic(g.size, g.offset, k) in g.used {
      ScanFindsFirst(g, k + 1);
    }
  }

  lemma FirstUnusedUnique(g: Gen, d: nat)
    requires g.Ok() && FirstUnused(g, d)
    ensures Scan(g, 0) == Some(d)
  {
    ScanFindsFirst(g, 0);
    var x := Cyclic(g.size, g.offset, d);
    assert 0 <= x < g.size && x !in g.used;
    var e := Scan(g, 0).value;
    assert !(e < d) && !(d < e);
  }

  /** Allocate: the granted offset, if any, and the generator afterwards. */
  function Grant(g: Gen): (Gen, Option<int>)
    requires g.Ok()
  {
    match Scan(g, 0)
    case None => (g, None)
    case Some(d) =>
      var x := Cyclic(g.size, g.offset, d);
      (Gen(g.size, Cyclic(g.size, x, 1), g.used + {x}), Some(x))
  }

  lemma WrapsAround(offset: int, size: int)
    requires 0 <= offset < size
    ensures (offset + 1) % size == Cyclic(size, offset, 1)
  {
    if offset + 1 < size {
      SmallMod(offset + 1, size);
    }
  }

  lemma RemainderBySize(x: nat, n: int)
    requires n != 0
    ensures x % n == x % (if n < 0 then -n else n)
  {
    if n < 0 {
      var q, r := x / -n, x % -n;
      assert x == (-q) * n + r;
      assert x / n == -q && x % n == r;
    }
  }

  class IDGenerator {
    const minValue: int
    const maxValue: int
    const valueRange: int
    var offset: int
    var usedMap: map<int, bool>

    /** The remainder by a negative number is that by its absolute value, so a generator made with
        `maxValue + 1 < minValue` works too, on a range of its own. With `maxValue + 1 == minValue` every
        Allocate divides by zero, after it has taken an offset and moved on. */
    ghost predicate Valid()
      reads this
    {
      && valueRange == maxValue - minValue + 1
      && (valueRange != 0 ==> Value().Ok())
      && (valueRange == 0 ==> offset >= 0 && forall x :: x in usedMap ==> x < offset)
    }

    /** The number of offsets. */
    ghost function Size(): nat {
      if valueRange < 0 then -valueRange else valueRange
    }

    ghost function Value(): Gen
      reads this
    {
      Gen(Size(), offset, usedMap.Keys)
    }

    constructor (minValue: int, maxValue: int)
      ensures this.minValue == minValue && this.maxValue == maxValue && valueRange == maxValue - minValue + 1
      ensures Valid()
      ensures offset == 0 && usedMap == map[]
    {
      this.minValue, this.maxValue := minValue, maxValue;
      this.valueRange := maxValue - minValue + 1;
      this.offset := 0;
      this.usedMap := map[];
    }

    /** The cursor is at an offset of the range. */
    ghost predicate Placed()
      reads this
    {
      offset >= 0 && (valueRange != 0 ==> Value().Ok())
    }

    method UpdateOffset() returns (panics: bool)
      requires Placed()
      modifies this`offset
      ensures Placed() && (panics <==> valueRange == 0)
      ensures offset == if panics then old(offset) + 1 else Cyclic(Size(), old(offset), 1)
    {
      hide Cyclic;
      offset := offset + 1;
      if valueRange == 0 {
        return true;
      }
      WrapsAround(old(offset), Size());
      RemainderBySize(offset, valueRange);
      offset := offset % valueRange;
      return false;
    }

    /** Grants the first unused id in cyclic order from the cursor; fails, changing nothing, iff every
        id is in use; panics iff the range size is zero. */
    method Allocate() returns (id: Option<int>, panics: bool)
      requires Valid()
      modifies this
      ensures Valid() && (panics <==> valueRange == 0)
      ensures panics ==> id.None? && usedMap == old(usedMap)[old(offset) := true] && offset == old(offset) + 1
      ensures id.Some? ==> minValue <= id.value < minValue + Size() && id.value - minValue !in old(usedMap)
      ensures id.Some? ==> (minValue <= id.value <= maxValue <==> minValue <= maxValue)
      ensures id.Some? ==> usedMap == old(usedMap)[id.value - minValue := true]
      ensures id.Some? ==> exists d: nat ::
                FirstUnused(old(Value()), d) && id.value - minValue == Cyclic(Size(), old(offset), d)
      ensures !panics ==> (id.None? <==> forall x :: 0 <= x < Size() ==> x in old(usedMap))
      ensures !panics && id.None? ==> offset == old(offset) && usedMap == old(usedMap)
      ensures !panics ==> Grant(old(Value())) == (Value(), if id.None? then None else Some(id.value - minValue))
    {
      ghost var g := Value();
      if valueRange != 0 {
        ScanFindsFirst(g, 0);
      }
      var offsetBegin := offset;
      ghost var d := 0;
      while offset in usedMap
        invariant Valid() && usedMap == old(usedMap)
        invariant valueRange == 0 ==> offset == offsetBegin && d == 0
        invariant valueRange != 0 ==> 0 <= d < Size() && offset == Cyclic(Size(), offsetBegin, d)
        invariant forall k :: 0 <= k < d ==> Cyclic(Size(), offsetBegin, k) in usedMap
        decreases Size() - d
      {
        panics := UpdateOffset();
        d := d + 1;
        if offset == offsetBegin {
          assert d == Size();
          ScanFindsFirst(g, d);
          return None, false;
        }
      }
      if valueRange != 0 {
        FirstUnusedUnique(g, d);
      }
      usedMap := usedMap[offset := true];
      id := Some(offset + minValue);
      assert usedMap.Keys == g.used + {offset};
      assert id.value - minValue !in g.used;
      panics := UpdateOffset();
      if panics {
        id := None;
      }
    }

    method FreeID(id: int)
      requires Valid()
      modifies this`usedMap
      ensures Valid() && usedMap == if minValue <= id <= maxValue then old(usedMap) - {id - minValue} else old(usedMap)
      ensures minValue <= maxValue ==> Value() == Release(old(Value()), id - minValue)
    {
      if id < minValue || id > maxValue {
        assert minValue <= maxValue ==> id - minValue !in usedMap;
        assert minValue <= maxValue ==> usedMap.Keys - {id - minValue} == usedMap.Keys;
        return;
      }
      usedMap := usedMap - {id - minValue};
    }
  }

  function Release(g: Gen, x: int): Gen {
    g.(used := g.used - {x})
  }

  // ---------------------------------------------------------------- runs

  datatype Op = Allocate | FreeOffset(x: int)

  function Apply(g: Gen, op: Op): (r: (Gen, Option<int>))
    requires g.Ok()
    ensures r.0.Ok() && r.0.size == g.size
  {
    match op
    case Allocate => ScanFindsFirst(g, 0); Grant(g)
    case FreeOffset(x) => (Release(g, x), None)
  }

  function GenAt(g: Gen, ops: seq<Op>, n: nat): (r: Gen)
    requires g.Ok() && n <= |ops|
    ensures r.Ok() && r.size == g.size
  {
    if n == 0 then g else Apply(GenAt(g, ops, n - 1), ops[n - 1]).0
  }

  /** The offset that call `n` grants. */
  function GrantedAt(g: Gen, ops: seq<Op>, n: nat): Option<int>
    requires g.Ok() && n < |ops|
  {
    Apply(GenAt(g, ops, n), ops[n]).1
  }

  /** The offsets granted by the calls `i, ..., n-1`. */
  function GrantedIn(g: Gen, ops: seq<Op>, i: nat, n: nat): set<int>
    requires g.Ok() && i <= n <= |ops|
  {
    if n == i then {}
    else GrantedIn(g, ops, i, n - 1) +
         match GrantedAt(g, ops, n - 1) case None => {} case Some(x) => {x}
  }

  /** The offsets not in use. */
  ghost function Idle(g: Gen): set<int> {
    set y | 0 <= y < g.size && y !in g.used
  }

  /** How far behind the offset just after `x` the offset `y` lies. */
  function Dist(size: nat, x: int, y: int): int {
    if y > x then y - x - 1 else y - x - 1 + size
  }

  /** Since the grant of `x`, the cursor has come round past every offset of `idle`, or all those it
      has passed so far have been granted. */
  ghost predicate Progress(g: Gen, x: int, idle: set<int>, granted: set<int>) {
    || idle <= granted
    || forall y :: y in idle && Dist(g.size, x, y) < Dist(g.size, x, g.offset) ==> y in granted
  }

  lemma SkippedWereGranted(g: Gen, d: nat, x: int, y: int, idle: set<int>, granted: set<int>)
    requires g.Ok() && FirstUnused(g, d) && 0 <= x < g.size && 0 <= y < g.size
    requires y in idle && g.used !! (idle - granted)
    requires Dist(g.size, x, g.offset) <= Dist(g.size, x, y) < Dist(g.size, x, g.offset) + d
    ensures y in granted
  {
    var k := Dist(g.size, x, y) - Dist(g.size, x, g.offset);
    assert Cyclic(g.size, g.offset, k) == y;
  }

  lemma GrantKeepsProgress(g: Gen, d: nat, x: int, idle: set<int>, granted: set<int>)
    requires g.Ok() && FirstUnused(g, d) && 0 <= x < g.size
    requires forall y :: y in idle ==> 0 <= y < g.size && y != x
    requires Progress(g, x, idle, granted) && g.used !! (idle - granted)
    ensures var z := Cyclic(g.size, g.offset, d);
            var h := Gen(g.size, Cyclic(g.size, z, 1), g.used + {z});
            Progress(h, x, idle, granted + {z})
    ensures Cyclic(g.size, g.offset, d) == x ==> idle <= granted
  {
    var z := Cyclic(g.size, g.offset, d);
    var h := Gen(g.size, Cyclic(g.size, z, 1), g.used + {z});
    var lapped := Dist(g.size, x, g.offset) + d >= g.size - 1;
    forall y | y in idle && (lapped || Dist(g.size, x, y) < Dist(g.size, x, h.offset))
      ensures y in granted || (y == z && !lapped) || (y == z && z != x)
    {
      if Dist(g.size, x, y) >= Dist(g.size, x, g.offset) && Dist(g.size, x, y) < Dist(g.size, x, g.offset) + d {
        SkippedWereGranted(g, d, x, y, idle, granted);
      }
    }
    if lapped {
      forall y | y in idle ensures y in granted + {z} {}
    }
  }

  lemma {:induction false} ProgressHolds(g: Gen, ops: seq<Op>, i: nat, n: nat, x: int)
    requires g.Ok() && i < n <= |ops| && GrantedAt(g, ops, i) == Some(x)
    ensures var after := GenAt(g, ops, i + 1);
            var idle := Idle(after);
            var granted := GrantedIn(g, ops, i + 1, n);
            && 0 <= x < g.size && x !in idle
            && GenAt(g, ops, n).used !! (idle - granted)
            && Progress(GenAt(g, ops, n), x, idle, granted)
  {
    var after := GenAt(g, ops, i + 1);
    var idle := Idle(after);
    if n == i + 1 {
      ScanFindsFirst(GenAt(g, ops, i), 0);
      assert after.offset == Cyclic(g.size, x, 1);
      assert Dist(g.size, x, after.offset) == 0;
    } else {
      ProgressHolds(g, ops, i, n - 1, x);
      var h, granted := GenAt(g, ops, n - 1), GrantedIn(g, ops, i + 1, n - 1);
      ScanFindsFirst(h, 0);
      if ops[n - 1].Allocate? && Scan(h, 0).Some? {
        GrantKeepsProgress(h, Scan(h, 0).value, x, idle, granted);
      }
    }
  }

  /** Fair reuse: if `x` is granted by call `i` and again by call `j`, then every offset that was not
      in use right after call `i` has been granted in between. */
  lemma ReusedOnlyAfterAllOthers(g: Gen, ops: seq<Op>, i: nat, j: nat, x: int, y: int)
    requires g.Ok() && i < j < |ops|
    requires GrantedAt(g, ops, i) == Some(x) && GrantedAt(g, ops, j) == Some(x)
    requires 0 <= y < g.size && y !in GenAt(g, ops, i + 1).used
    ensures y in GrantedIn(g, ops, i + 1, j) && y != x
  {
    ProgressHolds(g, ops, i, j, x);
    var idle := Idle(GenAt(g, ops, i + 1));
    var h := GenAt(g, ops, j);
    ScanFindsFirst(h, 0);
    GrantKeepsProgress(h, Scan(h, 0).value, x, idle, GrantedIn(g, ops, i + 1, j));
    assert y in idle;
  }

  lemma IdleStep(g: Gen, h: Gen)
    requires (forall x :: x in g.used ==> 0 <= x < g.size) && g.size > 0
    requires h == Gen(g.size - 1, g.offset, g.used - {g.size - 1})
    ensures g.size - 1 in g.used ==> Idle(g) == Idle(h) && |h.used| == |g.used| - 1
    ensures g.size - 1 !in g.used ==> Idle(g) == Idle(h) + {g.size - 1} && h.used == g.used
  {
  }

  lemma NothingIdle(g: Gen)
    requires (forall x :: x in g.used ==> 0 <= x < g.size) && g.size == 0
    ensures Idle(g) == {} && g.used == {}
  {
    assert forall x :: x !in Idle(g) && x !in g.used;
  }

  lemma {:induction false} IdleSize(g: Gen)
    requires forall x :: x in g.used ==> 0 <= x < g.size
    ensures |Idle(g)| == g.size - |g.used|
    decreases g.size
  {
    if g.size == 0 {
      NothingIdle(g);
    } else {
      var top := g.size - 1;
      var h := Gen(top, g.offset, g.used - {top});
      IdleSize(h);
      IdleStep(g, h);
      assert top !in Idle(h);
    }
  }

  /** ... so at least N - u other ids are granted in between, u being the number in use after call `i`. */
  lemma ReuseDistance(g: Gen, ops: seq<Op>, i: nat, j: nat, x: int)
    requires g.Ok() && i < j < |ops|
    requires GrantedAt(g, ops, i) == Some(x) && GrantedAt(g, ops, j) == Some(x)
    ensures |GrantedIn(g, ops, i + 1, j) - {x}| >= g.size - |GenAt(g, ops, i + 1).used|
  {
    var after := GenAt(g, ops, i + 1);
    var others := GrantedIn(g, ops, i + 1, j) - {x};
    forall y | y in Idle(after) ensures y in others {
      ReusedOnlyAfterAllOthers(g, ops, i, j, x, y);
    }
    IdleSize(after);
    SubsetSize(Idle(after), others);
  }
}
