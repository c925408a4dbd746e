/** Whole runs of the pool: what every sequence of calls keeps, and in which order values come back. */
module PoolRuns {
  import opened Options
  import opened Segments
  import opened Basics

  /** The pool as a value: its range and the segments from the head on. */
  datatype Pool = Pool(first: int, last: int, segs: seq<Range>) {
    predicate Covers(v: int) { first <= v <= last }

    predicate Contains(a: int, b: int) { a <= b && first <= a && b <= last }

    predicate Ok() { first <= last && Within(segs, first, last) }
  }

  datatype Op = Allocate | Use(value: int) | Free(value: int) | Reserve(a: int, b: int)

  datatype Reply = Granted(value: int) | Accepted | Refused

  function NewPool(first: int, last: int): Pool {
    Pool(first, last, [Range(first, last)])
  }

  function Changed(p: Pool, segs: Option<seq<Range>>, reply: Reply): (Pool, Reply) {
    match segs
    case None => (p, Refused)
    case Some(s) => (p.(segs := s), reply)
  }

  /** One call. */
  function Apply(p: Pool, op: Op): (Pool, Reply) {
    match op
    case Allocate =>
      if p.segs == [] then (p, Refused)
      else (p.(segs := AllocateSegs(p.segs)), Granted(p.segs[0].first))
    case Use(v) => Changed(p, UseSegs(p.segs, v), Granted(v))
    case Free(v) => if p.Covers(v) then Changed(p, FreeSegs(p.segs, v), Accepted) else (p, Refused)
    case Reserve(a, b) =>
      if p.Contains(a, b) then (p.(segs := ReserveSegs(p.segs, a, b)), Accepted) else (p, Refused)
  }

  function PoolAt(p: Pool, ops: seq<Op>, n: nat): Pool
    requires n <= |ops|
  {
    if n == 0 then p else Apply(PoolAt(p, ops, n - 1), ops[n - 1]).0
  }

  function ReplyAt(p: Pool, ops: seq<Op>, n: nat): Reply
    requires n < |ops|
  {
    Apply(PoolAt(p, ops, n), ops[n]).1
  }

  // ---------------------------------------------------------------- one call, on the free set

  /** Any call, by any client, keeps the segments non-empty and in range. */
  lemma ApplyKeepsOk(p: Pool, op: Op)
    requires p.Ok()
    ensures Apply(p, op).0.Ok()
  {
    match op
    case Allocate =>
      if p.segs != [] { AllocateRemovesFirst(p.segs, p.first, p.last); }
    case Use(v) => UseCounts(p.segs, v, p.first, p.last);
    case Free(v) =>
      if p.Covers(v) { FreeAdds(p.segs, v, p.first, p.last); }
    case Reserve(a, b) =>
      if p.Contains(a, b) { ReserveRemoves(p.segs, a, b, p.first, p.last); }
  }

  lemma FreeSetEmpty(segs: seq<Range>, lo: int, hi: int)
    requires Within(segs, lo, hi)
    ensures FreeSet(segs) == {} <==> segs == []
  {
    if segs != [] {
      assert segs[0].first in Interval(segs[0].first, segs[0].last);
    }
  }

  /** The free set after a call, for a pool without doubly free values. */
  ghost function FreeAfter(free: set<int>, op: Op, reply: Reply): set<int> {
    match reply
    case Granted(v) => free - {v}
    case Refused => free
    case Accepted => if op.Free? then free + {op.value} else if op.Reserve? then free - Interval(op.a, op.b) else free
  }

  /** The segment list refines a set of integers, call by call. */
  lemma ApplyRefinesSet(p: Pool, op: Op)
    requires p.Ok() && Separate(p.segs)
    requires op.Free? ==> op.value !in FreeSet(p.segs)
    ensures var (q, reply) := Apply(p, op);
            && q.Ok() && Separate(q.segs)
            && FreeSet(q.segs) == FreeAfter(FreeSet(p.segs), op, reply)
            && (reply.Granted? ==> reply.value in FreeSet(p.segs))
            && (op.Allocate? ==> (reply.Refused? <==> FreeSet(p.segs) == {}))
            && (op.Use? ==> reply == if op.value in FreeSet(p.segs) then Granted(op.value) else Refused)
            && (op.Free? ==> reply == if p.Covers(op.value) then Accepted else Refused)
            && (op.Reserve? ==> reply == if p.Contains(op.a, op.b) then Accepted else Refused)
  {
    hide FreeSet, Separate, UseSegs, FreeSegs, ReserveSegs, Within;
    ApplyKeepsOk(p, op);
    FreeSetEmpty(p.segs, p.first, p.last);
    match op
    case Allocate =>
      if p.segs != [] { AllocateRemovesFirst(p.segs, p.first, p.last); }
    case Use(v) =>
      UseCounts(p.segs, v, p.first, p.last);
      if UseSegs(p.segs, v).Some? { UseRemoves(p.segs, v, p.first, p.last); }
    case Free(v) =>
      if p.Covers(v) {
        FreeAdds(p.segs, v, p.first, p.last);
        FreeKeepsSeparate(p.segs, v, p.first, p.last);
      }
    case Reserve(a, b) =>
      if p.Contains(a, b) { ReserveRemoves(p.segs, a, b, p.first, p.last); }
  }

  // ---------------------------------------------------------------- runs of polite clients

  /** The pool together with what its clients hold and what has been reserved. */
  datatype World = World(pool: Pool, held: set<int>, reserved: set<int>)

  ghost function Next(w: World, op: Op): World {
    var (q, reply) := Apply(w.pool, op);
    match reply
    case Refused => w
    case Granted(v) => World(q, w.held + {v}, w.reserved)
    case Accepted =>
      if op.Free? then World(q, w.held - {op.value}, w.reserved)
      else if op.Reserve? then World(q, w.held, w.reserved + Interval(op.a, op.b))
      else w
  }

  /** A client frees only what is held (or what the pool does not cover) and reserves no held value. */
  ghost predicate Polite(w: World, op: Op) {
    match op
    case Free(v) => v in w.held || !w.pool.Covers(v)
    case Reserve(a, b) => w.pool.Contains(a, b) ==> Interval(a, b) !! w.held
    case _ => true
  }

  ghost function WorldAt(first: int, last: int, ops: seq<Op>, n: nat): World
    requires n <= |ops|
  {
    if n == 0 then World(NewPool(first, last), {}, {})
    else Next(WorldAt(first, last, ops, n - 1), ops[n - 1])
  }

  ghost predicate PoliteAt(first: int, last: int, ops: seq<Op>, i: nat)
    requires i < |ops|
  {
    Polite(WorldAt(first, last, ops, i), ops[i])
  }

  ghost predicate PoliteRun(first: int, last: int, ops: seq<Op>) {
    forall i :: 0 <= i < |ops| ==> PoliteAt(first, last, ops, i)
  }

  /** Free, held and reserved values partition the range of the pool. */
  ghost predicate Partition(w: World) {
    var free := FreeSet(w.pool.segs);
    && w.pool.Ok() && Separate(w.pool.segs)
    && free !! w.held && free !! w.reserved && w.held !! w.reserved
    && free + w.held + w.reserved == Interval(w.pool.first, w.pool.last)
  }

  lemma NextKeepsPartition(w: World, op: Op)
    requires Partition(w) && Polite(w, op)
    ensures Partition(Next(w, op))
    ensures Next(w, op).pool == Apply(w.pool, op).0
  {
    ApplyReplies(w.pool, op);
    if op.Free? {
      FreeSetWithin(w.pool.segs, w.pool.first, w.pool.last);
    }
    hide FreeSet, Separate, Apply;
    ApplyRefinesSet(w.pool, op);
  }

  lemma ApplyReplies(p: Pool, op: Op)
    ensures var (q, reply) := Apply(p, op);
            && q.first == p.first && q.last == p.last
            && (reply.Refused? ==> q == p)
            && (reply.Accepted? ==> (op.Free? && p.Covers(op.value)) || (op.Reserve? && p.Contains(op.a, op.b)))
            && (reply.Granted? ==> op.Allocate? || op.Use?)
  {
  }

  lemma StartPartition(first: int, last: int)
    requires first <= last
    ensures Partition(World(NewPool(first, last), {}, {}))
  {
    FreeSetOne(Range(first, last));
  }

  lemma {:induction false} RunKeepsPartition(first: int, last: int, ops: seq<Op>, n: nat)
    requires first <= last && n <= |ops| && PoliteRun(first, last, ops)
    ensures var w := WorldAt(first, last, ops, n);
            && Partition(w) && w.pool.first == first && w.pool.last == last
            && w.pool == PoolAt(NewPool(first, last), ops, n)
  {
    StartPartition(first, last);
    hide Partition, Apply, Next, Polite, FreeSet, Separate;
    if n > 0 {
      RunKeepsPartition(first, last, ops, n - 1);
      var prev := WorldAt(first, last, ops, n - 1);
      assert PoliteAt(first, last, ops, n - 1);
      NextKeepsPartition(prev, ops[n - 1]);
      NextKeepsRange(first, last, ops, n);
    }
  }

  lemma {:induction false} NextKeepsRange(first: int, last: int, ops: seq<Op>, n: nat)
    requires n <= |ops|
    ensures WorldAt(first, last, ops, n).pool.first == first
    ensures WorldAt(first, last, ops, n).pool.last == last
  {
    hide Apply;
    if n > 0 {
      NextKeepsRange(first, last, ops, n - 1);
      ApplyReplies(WorldAt(first, last, ops, n - 1).pool, ops[n - 1]);
    }
  }

  /** The `remain` counter: what is neither held nor reserved. */
  lemma RunCounts(first: int, last: int, ops: seq<Op>, n: nat)
    requires first <= last && n <= |ops| && PoliteRun(first, last, ops)
    ensures var w := WorldAt(first, last, ops, n);
            Total(w.pool.segs) == (last - first + 1) - |w.held| - |w.reserved|
  {
    hide FreeSet, Separate, Apply, Next, Polite, WorldAt, PoolAt, Total;
    RunKeepsPartition(first, last, ops, n);
    var w := WorldAt(first, last, ops, n);
    var free := FreeSet(w.pool.segs);
    TotalIsSize(w.pool.segs, first, last);
    IntervalSize(first, last);
    assert |free + w.held + w.reserved| == |free + w.held| + |w.reserved|;
  }

  lemma {:induction false} ReservedForever(first: int, last: int, ops: seq<Op>, i: nat, j: nat)
    requires i <= j <= |ops|
    ensures WorldAt(first, last, ops, i).reserved <= WorldAt(first, last, ops, j).reserved
  {
    hide Apply;
    if i < j {
      ReservedForever(first, last, ops, i, j - 1);
    }
  }

  /** A reserved value is never granted again. */
  lemma NoReservedGrant(first: int, last: int, ops: seq<Op>, i: nat, j: nat, a: int, b: int, v: int)
    requires first <= last && PoliteRun(first, last, ops) && i < j < |ops|
    requires ops[i] == Reserve(a, b) && ReplyAt(NewPool(first, last), ops, i) == Accepted
    requires ReplyAt(NewPool(first, last), ops, j) == Granted(v)
    ensures !(a <= v <= b)
  {
    hide FreeSet, Separate, Apply, Total;
    RunKeepsPartition(first, last, ops, i);
    RunKeepsPartition(first, last, ops, j);
    ReservedForever(first, last, ops, i + 1, j);
    var w := WorldAt(first, last, ops, j);
    assert PoliteAt(first, last, ops, j);
    ApplyRefinesSet(w.pool, ops[j]);
    assert Interval(a, b) <= w.reserved;
  }

  // ---------------------------------------------------------------- runs of any clients

  lemma {:induction false} RunKeepsOk(p: Pool, ops: seq<Op>, n: nat)
    requires p.Ok() && n <= |ops|
    ensures var q := PoolAt(p, ops, n);
            q.Ok() && q.first == p.first && q.last == p.last
  {
    hide Apply;
    if n > 0 {
      RunKeepsOk(p, ops, n - 1);
      var q := PoolAt(p, ops, n - 1);
      ApplyKeepsOk(q, ops[n - 1]);
      ApplyReplies(q, ops[n - 1]);
    }
  }

  /** Only a Free of `v` makes `v` free, and only free values are granted. */
  lemma NotFreeStep(p: Pool, op: Op, v: int)
    requires p.Ok() && v !in FreeSet(p.segs)
    ensures Apply(p, op).1 != Granted(v)
    ensures op != Free(v) ==> v !in FreeSet(Apply(p, op).0.segs)
  {
    hide FreeSet, UseSegs, FreeSegs, ReserveSegs, AllocateSegs, Separate, Total;
    match op
    case Allocate =>
      if p.segs != [] {
        AllocateRemovesFirst(p.segs, p.first, p.last);
        AllocateShrinks(p.segs);
      }
    case Use(w) =>
      UseCounts(p.segs, w, p.first, p.last);
      if UseSegs(p.segs, w).Some? { UseShrinks(p.segs, w, p.first, p.last); }
    case Free(w) =>
      if p.Covers(w) { FreeAdds(p.segs, w, p.first, p.last); }
    case Reserve(a, b) =>
      if p.Contains(a, b) { ReserveRemoves(p.segs, a, b, p.first, p.last); }
  }

  /** Whatever clients do, a value that is not free stays so until a Free of it. */
  lemma {:induction false} NotFreeUntilFreed(p: Pool, ops: seq<Op>, i: nat, j: nat, v: int)
    requires p.Ok() && i <= j <= |ops| && v !in FreeSet(PoolAt(p, ops, i).segs)
    requires forall k :: i <= k < j ==> ops[k] != Free(v)
    ensures v !in FreeSet(PoolAt(p, ops, j).segs)
  {
    hide Apply, FreeSet;
    if i < j {
      NotFreeUntilFreed(p, ops, i, j - 1, v);
      RunKeepsOk(p, ops, j - 1);
      NotFreeStep(PoolAt(p, ops, j - 1), ops[j - 1], v);
    }
  }

  /** Whatever clients do: a value granted while no value sits in two segments is granted again only after
      a Free of it. */
  lemma NoDoubleGrant(p: Pool, ops: seq<Op>, i: nat, j: nat, v: int)
    requires p.Ok() && i < j < |ops| && Separate(PoolAt(p, ops, i).segs)
    requires ReplyAt(p, ops, i) == Granted(v) && ReplyAt(p, ops, j) == Granted(v)
    ensures exists k :: i < k < j && ops[k] == Free(v)
  {
    hide FreeSet, Separate, Apply;
    RunKeepsOk(p, ops, i);
    var q := PoolAt(p, ops, i);
    ApplyReplies(q, ops[i]);
    ApplyRefinesSet(q, ops[i]);
    assert PoolAt(p, ops, i + 1) == Apply(q, ops[i]).0;
    if forall k :: i < k < j ==> ops[k] != Free(v) {
      NotFreeUntilFreed(p, ops, i + 1, j, v);
      RunKeepsOk(p, ops, j);
      NotFreeStep(PoolAt(p, ops, j), ops[j], v);
      assert false;
    }
  }

  /** Call `k` does not free a value that is free. */
  ghost predicate CleanFree(p: Pool, ops: seq<Op>, k: nat)
    requires k < |ops|
  {
    ops[k].Free? ==> ops[k].value !in FreeSet(PoolAt(p, ops, k).segs)
  }

  /** Clients that free only values that are not free keep the segments disjoint. */
  lemma {:induction false} CleanRunKeepsSeparate(p: Pool, ops: seq<Op>, n: nat)
    requires p.Ok() && Separate(p.segs) && n <= |ops| && forall k :: 0 <= k < n ==> CleanFree(p, ops, k)
    ensures Separate(PoolAt(p, ops, n).segs)
  {
    hide Apply, FreeSet, Separate;
    if n > 0 {
      CleanRunKeepsSeparate(p, ops, n - 1);
      RunKeepsOk(p, ops, n - 1);
      assert CleanFree(p, ops, n - 1);
      ApplyRefinesSet(PoolAt(p, ops, n - 1), ops[n - 1]);
    }
  }

  /** Polite clients are among them. */
  lemma PoliteRunIsClean(first: int, last: int, ops: seq<Op>, k: nat)
    requires first <= last && PoliteRun(first, last, ops) && k < |ops|
    ensures CleanFree(NewPool(first, last), ops, k)
  {
    hide FreeSet, Separate, Apply, Next, WorldAt, PoolAt;
    RunKeepsPartition(first, last, ops, k);
    assert PoliteAt(first, last, ops, k);
    FreeSetWithin(WorldAt(first, last, ops, k).pool.segs, first, last);
  }

  /** So such clients are never granted a value twice without a Free of it in between. */
  lemma CleanRunGrantsOnce(p: Pool, ops: seq<Op>, i: nat, j: nat, v: int)
    requires p.Ok() && Separate(p.segs) && i < j < |ops| && forall k :: 0 <= k < i ==> CleanFree(p, ops, k)
    requires ReplyAt(p, ops, i) == Granted(v) && ReplyAt(p, ops, j) == Granted(v)
    ensures exists k :: i < k < j && ops[k] == Free(v)
  {
    CleanRunKeepsSeparate(p, ops, i);
    NoDoubleGrant(p, ops, i, j, v);
  }

  /** In every run, by any clients, a reserved value is granted only after a Free of it. */
  lemma ReservedGrantNeedsFree(p: Pool, ops: seq<Op>, i: nat, j: nat, a: int, b: int, v: int)
    requires p.Ok() && i < j < |ops| && ops[i] == Reserve(a, b) && ReplyAt(p, ops, i) == Accepted
    requires a <= v <= b && ReplyAt(p, ops, j) == Granted(v)
    ensures exists k :: i < k < j && ops[k] == Free(v)
  {
    var q := PoolAt(p, ops, i);
    RunKeepsOk(p, ops, i);
    ReserveRemoves(q.segs, a, b, q.first, q.last);
    assert PoolAt(p, ops, i + 1) == Apply(q, ops[i]).0;
    hide FreeSet, ReserveSegs, UseSegs, FreeSegs;
    assert v in Interval(a, b);
    if forall k :: i < k < j ==> ops[k] != Free(v) {
      NotFreeUntilFreed(p, ops, i + 1, j, v);
      RunKeepsOk(p, ops, j);
      NotFreeStep(PoolAt(p, ops, j), ops[j], v);
      assert false;
    }
  }

  lemma GrantInRange(p: Pool, op: Op, v: int)
    requires p.Ok() && Apply(p, op).1 == Granted(v)
    ensures p.Covers(v)
  {
    hide Apply;
    FreeSetWithin(p.segs, p.first, p.last);
    if v !in FreeSet(p.segs) {
      NotFreeStep(p, op, v);
    }
  }

  /** A granted value lies in the range of the pool, whatever clients do. */
  lemma GrantsInRange(first: int, last: int, ops: seq<Op>, j: nat, v: int)
    requires first <= last && j < |ops|
    requires ReplyAt(NewPool(first, last), ops, j) == Granted(v)
    ensures first <= v <= last
  {
    hide Apply;
    RunKeepsOk(NewPool(first, last), ops, j);
    GrantInRange(PoolAt(NewPool(first, last), ops, j), ops[j], v);
  }

  // ---------------------------------------------------------------- duplicate free

  predicate OnlyAllocateAndFree(ops: seq<Op>) {
    forall i :: 0 <= i < |ops| ==> ops[i].Allocate? || ops[i].Free?
  }

  /** Allocate and Free alone keep the segments behind the head ascending, for any client. */
  lemma {:induction false} AllocateFreeKeepsTail(first: int, last: int, ops: seq<Op>, n: nat)
    requires first <= last && OnlyAllocateAndFree(ops) && n <= |ops|
    ensures var p := PoolAt(NewPool(first, last), ops, n);
            && p.Ok() && p.first == first && p.last == last && TailAscending(p.segs)
            && forall i, j :: 1 <= i < j < |p.segs| ==> p.segs[i].last + 1 < p.segs[j].first
  {
    if n > 0 {
      AllocateFreeKeepsTail(first, last, ops, n - 1);
      var p, op := PoolAt(NewPool(first, last), ops, n - 1), ops[n - 1];
      ApplyKeepsOk(p, op);
      if op.Allocate? {
        if p.segs != [] { AllocateKeepsTailAscending(p.segs); }
      } else if p.Covers(op.value) && FreeSegs(p.segs, op.value).Some? {
        FreeKeepsTailAscending(p.segs, op.value, first, last);
      }
      TailPairs(Apply(p, op).0.segs, first, last);
    }
  }

  lemma TailPairs(segs: seq<Range>, lo: int, hi: int)
    requires Within(segs, lo, hi) && TailAscending(segs)
    ensures forall i, j :: 1 <= i < j < |segs| ==> segs[i].last + 1 < segs[j].first
  {
    if segs != [] {
      var tail := segs[1..];
      AscendingPairs(tail, lo, hi);
      forall i, j | 1 <= i < j < |segs| ensures segs[i].last + 1 < segs[j].first {
        assert segs[i] == tail[i - 1] && segs[j] == tail[j - 1];
      }
    }
  }

  /** In such a run a repeated Free(v) is rejected, pool unchanged, iff `v` is not `head.last + 1`. */
  lemma RepeatedFreeRejected(first: int, last: int, ops: seq<Op>, v: int)
    requires first <= last && OnlyAllocateAndFree(ops)
    requires v in FreeSet(PoolAt(NewPool(first, last), ops, |ops|).segs)
    ensures var p := PoolAt(NewPool(first, last), ops, |ops|);
            Apply(p, Free(v)) == (p, Refused) <==> v != p.segs[0].last + 1
  {
    AllocateFreeKeepsTail(first, last, ops, |ops|);
    var p := PoolAt(NewPool(first, last), ops, |ops|);
    FreeSetWithin(p.segs, first, last);
    AscendingRejectsDuplicates(p.segs, v, first, last);
  }

  // ---------------------------------------------------------------- lazy reuse order

  function Allocates(ops: seq<Op>, n: nat): nat
    requires n <= |ops|
  {
    if n == 0 then 0 else Allocates(ops, n - 1) + if ops[n - 1].Allocate? then 1 else 0
  }

  lemma FreeKeepsHeadFirst(segs: seq<Range>, v: int)
    requires segs != [] && (forall i :: 0 <= i < |segs| ==> segs[i].first <= segs[i].last)
    requires FreeSegs(segs, v).Some?
    ensures var t := FreeSegs(segs, v).value;
            t != [] && t[0].first == segs[0].first && t[0].last >= segs[0].last
  {
  }

  lemma {:induction false} HeadServes(p: Pool, ops: seq<Op>, n: nat)
    requires p.Ok() && p.segs != [] && OnlyAllocateAndFree(ops) && n <= |ops|
    requires Allocates(ops, n) <= p.segs[0].last - p.segs[0].first
    ensures var q := PoolAt(p, ops, n);
            && q.Ok() && q.segs != []
            && q.segs[0].first == p.segs[0].first + Allocates(ops, n)
            && q.segs[0].last >= p.segs[0].last
  {
    if n > 0 {
      HeadServes(p, ops, n - 1);
      var q, op := PoolAt(p, ops, n - 1), ops[n - 1];
      ApplyKeepsOk(q, op);
      if op.Free? && FreeSegs(q.segs, op.value).Some? {
        FreeKeepsHeadFirst(q.segs, op.value);
      }
    }
  }

  /** Lazy reuse: with head `[a,b]`, the next b-a+1 Allocate calls return a, a+1, ..., b, whatever is
      freed in between. */
  lemma HeadServedInOrder(p: Pool, ops: seq<Op>, n: nat)
    requires p.Ok() && p.segs != [] && OnlyAllocateAndFree(ops) && n < |ops|
    requires ops[n] == Allocate && Allocates(ops, n) <= p.segs[0].last - p.segs[0].first
    ensures ReplyAt(p, ops, n) == Granted(p.segs[0].first + Allocates(ops, n))
  {
    HeadServes(p, ops, n);
  }

  function Values(r: Range): seq<int>
    requires r.first <= r.last
  {
    seq(r.Size(), i => r.first + i)
  }

  /** Every value of the list, segment by segment. */
  function Flatten(segs: seq<Range>): seq<int>
    requires forall i :: 0 <= i < |segs| ==> segs[i].first <= segs[i].last
  {
    if segs == [] then [] else Values(segs[0]) + Flatten(segs[1..])
  }

  lemma ValuesList(r: Range)
    requires r.first <= r.last
    ensures forall v :: v in Values(r) <==> v in Interval(r.first, r.last)
    ensures Distinct(Values(r))
  {
    forall v ensures v in Values(r) <==> v in Interval(r.first, r.last) {
      if v in Interval(r.first, r.last) {
        assert Values(r)[v - r.first] == v;
      }
    }
  }

  lemma {:induction false} FlattenLists(segs: seq<Range>, lo: int, hi: int)
    requires Within(segs, lo, hi)
    ensures |Flatten(segs)| == Total(segs)
    ensures forall v :: v in Flatten(segs) <==> v in FreeSet(segs)
    ensures Separate(segs) ==> Distinct(Flatten(segs))
  {
    hide Values, Interval, Distinct;
    if segs == [] {
      NoneDistinct();
    } else {
      var r, rest := segs[0], segs[1..];
      FlattenLists(rest, lo, hi);
      ValuesList(r);
      ValuesCount(r);
      if Separate(segs) {
        forall x | x in Values(r) ensures x !in Flatten(rest) {
          assert x in Interval(r.first, r.last);
        }
        ConcatDistinct(Values(r), Flatten(rest));
      }
    }
  }

  lemma NoneDistinct()
    ensures Distinct<int>([])
  {
  }

  lemma ValuesCount(r: Range)
    requires r.first <= r.last
    ensures |Values(r)| == r.Size()
  {
  }

  lemma ValuesFromFirst(r: Range)
    requires r.first <= r.last
    ensures Values(r) == [r.first] + if r.first == r.last then [] else Values(Range(r.first + 1, r.last))
  {
  }

  lemma AllocateDropsFirst(segs: seq<Range>, lo: int, hi: int)
    requires segs != [] && Within(segs, lo, hi)
    ensures Within(AllocateSegs(segs), lo, hi)
    ensures Flatten(segs) == [segs[0].first] + Flatten(AllocateSegs(segs))
  {
    hide Flatten, Values;
    var r, t := segs[0], AllocateSegs(segs);
    if r.first < r.last {
      DropsFirst(segs, t);
    } else {
      FlattenCons(segs);
      ValuesFromFirst(r);
    }
  }

  lemma DropsFirst(segs: seq<Range>, t: seq<Range>)
    requires forall i :: 0 <= i < |segs| ==> segs[i].first <= segs[i].last
    requires segs != [] && segs[0].first < segs[0].last
    requires t == [Range(segs[0].first + 1, segs[0].last)] + segs[1..]
    ensures Flatten(segs) == [segs[0].first] + Flatten(t)
  {
    hide *;
    var r, rest := segs[0], segs[1..];
    assert segs == [r] + rest;
    FlattenHead(r, rest);
    FlattenHead(Range(r.first + 1, r.last), rest);
    ValuesFromFirst(r);
    Reassociate([r.first], Values(Range(r.first + 1, r.last)), Flatten(rest));
  }

  lemma FlattenHead(r: Range, rest: seq<Range>)
    requires r.first <= r.last && forall i :: 0 <= i < |rest| ==> rest[i].first <= rest[i].last
    ensures Flatten([r] + rest) == Values(r) + Flatten(rest)
  {
    assert ([r] + rest)[1..] == rest;
  }

  lemma FlattenCons(segs: seq<Range>)
    requires segs != [] && forall i :: 0 <= i < |segs| ==> segs[i].first <= segs[i].last
    ensures Flatten(segs) == Values(segs[0]) + Flatten(segs[1..])
  {
  }

  /** As many successive Allocates as the counter says return the flattened Dump in order, all
      distinct, and the next one fails. */
  lemma {:induction false} DrainInOrder(p: Pool, ops: seq<Op>, n: nat)
    requires p.Ok() && n < |ops| && forall i :: 0 <= i < |ops| ==> ops[i] == Allocate
    ensures |Flatten(p.segs)| == Total(p.segs)
    ensures Separate(p.segs) ==> Distinct(Flatten(p.segs))
    ensures ReplyAt(p, ops, n) ==
            if n < |Flatten(p.segs)| then Granted(Flatten(p.segs)[n]) else Refused
  {
    FlattenLists(p.segs, p.first, p.last);
    Drained(p, ops, n);
    var q := PoolAt(p, ops, n);
    if q.segs != [] {
      AllocateDropsFirst(q.segs, p.first, p.last);
      assert Flatten(q.segs)[0] == q.segs[0].first;
    }
  }

  lemma {:induction false} Drained(p: Pool, ops: seq<Op>, n: nat)
    requires p.Ok() && n <= |ops| && forall i :: 0 <= i < |ops| ==> ops[i] == Allocate
    ensures var q := PoolAt(p, ops, n);
            && q.Ok() && q.first == p.first && q.last == p.last
            && Flatten(q.segs) == (if n <= |Flatten(p.segs)| then Flatten(p.segs)[n..] else [])
  {
    if n > 0 {
      Drained(p, ops, n - 1);
      var q := PoolAt(p, ops, n - 1);
      ApplyKeepsOk(q, Allocate);
      if q.segs != [] {
        AllocateDropsFirst(q.segs, p.first, p.last);
        assert Flatten(q.segs)[1..] == Flatten(AllocateSegs(q.segs));
      }
    }
  }

  // ---------------------------------------------------------------- a repeated Free that is accepted

  lemma {:induction false} PoolAtConcat(p: Pool, front: seq<Op>, back: seq<Op>, n: nat)
    requires n <= |back|
    ensures PoolAt(p, front + back, |front| + n) == PoolAt(PoolAt(p, front, |front|), back, n)
    ensures n < |back| ==> ReplyAt(p, front + back, |front| + n) == ReplyAt(PoolAt(p, front, |front|), back, n)
  {
    hide Apply;
    if n == 0 {
      PoolAtFront(p, front, back, |front|);
    } else {
      PoolAtConcat(p, front, back, n - 1);
    }
  }

  lemma {:induction false} PoolAtFront(p: Pool, front: seq<Op>, back: seq<Op>, n: nat)
    requires n <= |front|
    ensures PoolAt(p, front + back, n) == PoolAt(p, front, n)
  {
    hide Apply;
    if n > 0 {
      PoolAtFront(p, front, back, n - 1);
    }
  }

  /** As many Allocates as the pool has values take everything. */
  lemma AllTaken(first: int, last: int, ops: seq<Op>)
    requires first <= last && |ops| == last - first + 1 && forall i :: 0 <= i < |ops| ==> ops[i] == Allocate
    ensures PoolAt(NewPool(first, last), ops, |ops|) == Pool(first, last, [])
  {
    var p := NewPool(first, last);
    Drained(p, ops, |ops|);
    FlattenLists(p.segs, first, last);
    FreeSetOne(Range(first, last));
    var q := PoolAt(p, ops, |ops|);
    FlattenLists(q.segs, first, last);
    if q.segs != [] {
      FlattenCons(q.segs);
    }
  }

  /** Allocate on the head `r`. */
  lemma AllocateStep(p: Pool, r: Range, rest: seq<Range>)
    requires p.segs == [r] + rest
    ensures Apply(p, Allocate) ==
            (p.(segs := if r.first < r.last then [Range(r.first + 1, r.last)] + rest else rest), Granted(r.first))
  {
    assert p.segs[1..] == rest;
  }

  /** Free on the head `r`, when the value does not touch it or touches its back. */
  lemma FreeStep(p: Pool, r: Range, rest: seq<Range>, v: int)
    requires p.segs == [r] + rest && p.Covers(v) && r.first <= r.last && !r.Has(v)
    ensures v != r.last + 1 ==> Apply(p, Free(v)) == Changed(p, Prepend(r, FreeTail(rest, v)), Accepted)
    ensures v == r.last + 1 && (rest == [] || rest[0].first != v + 1) ==>
              Apply(p, Free(v)) == (p.(segs := [Range(r.first, v)] + rest), Accepted)
  {
    assert p.segs[1..] == rest && (rest != [] ==> p.segs[1] == rest[0]);
  }

  /** With everything out of 1..7, free 5, 7, 1, 6 and 7 again. */
  function Abuse(): seq<Op> {
    [Free(5), Free(7), Free(1), Free(6), Free(7)] + [Allocate, Allocate, Allocate, Allocate, Allocate]
  }

  lemma FirstFrees(full: Pool)
    requires full == Pool(1, 7, [])
    ensures PoolAt(full, Abuse(), 3) == full.(segs := [Range(5, 5), Range(1, 1), Range(7, 7)])
  {
    var r1, r5, r7 := Range(1, 1), Range(5, 5), Range(7, 7);
    var p1, p2, p3 := Pool(1, 7, [r5]), Pool(1, 7, [r5, r7]), Pool(1, 7, [r5, r1, r7]);
    assert Apply(full, Free(5)).0 == p1;
    FreeStep(p1, r5, [], 7);
    assert Apply(p1, Free(7)).0 == p2;
    FreeStep(p2, r5, [r7], 1);
    assert Apply(p2, Free(1)).0 == p3;
    hide Apply;
    var ops := Abuse();
    assert PoolAt(full, ops, 1) == Apply(full, ops[0]).0;
    assert PoolAt(full, ops, 2) == Apply(p1, ops[1]).0;
    assert PoolAt(full, ops, 3) == Apply(p2, ops[2]).0;
  }

  lemma LastFrees(full: Pool)
    requires full == Pool(1, 7, [])
    ensures PoolAt(full, Abuse(), 4) == full.(segs := [Range(5, 6), Range(1, 1), Range(7, 7)])
    ensures PoolAt(full, Abuse(), 5) == full.(segs := [Range(5, 7), Range(1, 1), Range(7, 7)])
    ensures ReplyAt(full, Abuse(), 4) == Accepted
  {
    hide Apply, FreeSegs;
    FirstFrees(full);
    var rest := [Range(1, 1), Range(7, 7)];
    var p3, p4, p5 := Pool(1, 7, [Range(5, 5)] + rest), Pool(1, 7, [Range(5, 6)] + rest), Pool(1, 7, [Range(5, 7)] + rest);
    assert p3.segs == [Range(5, 5), Range(1, 1), Range(7, 7)];
    FreeStep(p3, Range(5, 5), rest, 6);
    FreeStep(p4, Range(5, 6), rest, 7);
    var ops := Abuse();
    assert PoolAt(full, ops, 4) == Apply(p3, ops[3]).0;
    assert PoolAt(full, ops, 5) == Apply(p4, ops[4]).0;
  }

  lemma FiveAllocates(full: Pool)
    requires full == Pool(1, 7, [])
    ensures ReplyAt(full, Abuse(), 7) == Granted(7) && ReplyAt(full, Abuse(), 9) == Granted(7)
  {
    hide Apply, AllocateSegs;
    LastFrees(full);
    var r1, r7 := Range(1, 1), Range(7, 7);
    var p5, p6, p7 := Pool(1, 7, [Range(5, 7)] + [r1, r7]), Pool(1, 7, [Range(6, 7)] + [r1, r7]), Pool(1, 7, [r7] + [r1, r7]);
    var p8, p9 := Pool(1, 7, [r1] + [r7]), Pool(1, 7, [r7] + []);
    assert p5.segs == [Range(5, 7), r1, r7] && p8.segs == [r1, r7] && p9.segs == [r7];
    AllocateStep(p5, Range(5, 7), [r1, r7]);
    AllocateStep(p6, Range(6, 7), [r1, r7]);
    AllocateStep(p7, r7, [r1, r7]);
    AllocateStep(p8, r1, [r7]);
    AllocateStep(p9, r7, []);
    var ops := Abuse();
    assert PoolAt(full, ops, 6) == Apply(p5, ops[5]).0;
    assert PoolAt(full, ops, 7) == Apply(p6, ops[6]).0;
    assert PoolAt(full, ops, 8) == Apply(p7, ops[7]).0;
    assert PoolAt(full, ops, 9) == Apply(p8, ops[8]).0;
  }

  /** A run from a new pool on 1..7 in which a repeated Free is accepted: allocate everything, then free 5,
      7, 1, 6 and again 7. Two later Allocate calls then grant 7. */
  lemma RepeatedFreeAccepted(take: seq<Op>)
    requires |take| == 7 && forall i :: 0 <= i < 7 ==> take[i] == Allocate
    ensures var p, ops := NewPool(1, 7), take + Abuse();
            && PoolAt(p, ops, 11).segs == [Range(5, 6), Range(1, 1), Range(7, 7)]
            && ops[11] == Free(7) && ReplyAt(p, ops, 11) == Accepted
            && ReplyAt(p, ops, 14) == Granted(7) && ReplyAt(p, ops, 16) == Granted(7)
            && forall k :: 14 < k < 16 ==> ops[k] == Allocate
  {
    hide PoolAt, ReplyAt;
    var p, full := NewPool(1, 7), Pool(1, 7, []);
    AllTaken(1, 7, take);
    LastFrees(full);
    FiveAllocates(full);
    PoolAtConcat(p, take, Abuse(), 4);
    PoolAtConcat(p, take, Abuse(), 7);
    PoolAtConcat(p, take, Abuse(), 9);
  }
}
