/** The order in which the pool hands values out: what each call does to the flattened dump, the queue of the
    values to come. */
module PoolOrders {
  import opened Basics
  import opened Segments
  import opened PoolRuns

  /** The values from `lo` to `hi`, none when `hi < lo`. */
  function Span(lo: int, hi: int): (s: seq<int>)
    ensures |s| == if lo <= hi then hi - lo + 1 else 0
    ensures forall i :: 0 <= i < |s| ==> s[i] == lo + i
  {
    seq(if lo <= hi then hi - lo + 1 else 0, i => lo + i)
  }

  lemma SpanSplit(lo: int, m: int, hi: int)
    requires lo <= m + 1 <= hi + 1
    ensures Span(lo, hi) == Span(lo, m) + Span(m + 1, hi)
  {
  }

  // ---------------------------------------------------------------- the queue

  /** The first occurrence of `v` deleted in place. */
  function RemoveFirst(q: seq<int>, v: int): seq<int> {
    if q == [] then [] else if q[0] == v then q[1..] else [q[0]] + RemoveFirst(q[1..], v)
  }

  /** The values outside `[a,b]`, in their order. */
  function Outside(q: seq<int>, a: int, b: int): seq<int> {
    if q == [] then [] else (if a <= q[0] <= b then [] else [q[0]]) + Outside(q[1..], a, b)
  }

  /** `v` put in front of the first greater value, or right behind `v - 1` when that comes earlier; `touch`
      tells that `v - 1` stands just before `q`. */
  function Insert(q: seq<int>, touch: bool, v: int): seq<int> {
    if touch || q == [] || q[0] > v then [v] + q else [q[0]] + Insert(q[1..], q[0] == v - 1, v)
  }

  lemma {:induction false} RemoveFirstAt(a: seq<int>, v: int, b: seq<int>)
    requires v !in a
    ensures RemoveFirst(a + ([v] + b), v) == a + b
  {
    if a == [] {
      assert a + ([v] + b) == [v] + b && a + b == b;
    } else {
      RemoveFirstAt(a[1..], v, b);
      assert (a + ([v] + b))[1..] == a[1..] + ([v] + b);
      assert a + b == [a[0]] + (a[1..] + b);
    }
  }

  lemma {:induction false} RemoveFirstPast(a: seq<int>, v: int, b: seq<int>)
    requires v !in a
    ensures RemoveFirst(a + b, v) == a + RemoveFirst(b, v)
  {
    if a == [] {
      assert a + b == b && a + RemoveFirst(b, v) == RemoveFirst(b, v);
    } else {
      var rest := a[1..];
      RemoveFirstPast(rest, v, b);
      assert (a + b)[0] == a[0] && (a + b)[1..] == rest + b && [a[0]] + rest == a;
      Reassociate([a[0]], rest, RemoveFirst(b, v));
    }
  }

  lemma {:induction false} OutsideConcat(p: seq<int>, q: seq<int>, a: int, b: int)
    ensures Outside(p + q, a, b) == Outside(p, a, b) + Outside(q, a, b)
  {
    if p == [] {
      assert p + q == q && Outside(p, a, b) + Outside(q, a, b) == Outside(q, a, b);
    } else {
      var head := if a <= p[0] <= b then [] else [p[0]];
      OutsideConcat(p[1..], q, a, b);
      assert (p + q)[1..] == p[1..] + q;
      Reassociate(head, Outside(p[1..], a, b), Outside(q, a, b));
    }
  }

  lemma {:induction false} AllOutside(q: seq<int>, a: int, b: int)
    requires forall i :: 0 <= i < |q| ==> !(a <= q[i] <= b)
    ensures Outside(q, a, b) == q
  {
    if q != [] {
      AllOutside(q[1..], a, b);
      assert [q[0]] + q[1..] == q;
    }
  }

  lemma {:induction false} NoneOutside(q: seq<int>, a: int, b: int)
    requires forall i :: 0 <= i < |q| ==> a <= q[i] <= b
    ensures Outside(q, a, b) == []
  {
    if q != [] {
      NoneOutside(q[1..], a, b);
    }
  }

  /** What `[a,b]` leaves of a span: the part below, then the part above. */
  lemma SpanOutside(lo: int, hi: int, a: int, b: int)
    requires lo <= hi && a <= b && a <= hi && lo <= b
    ensures Outside(Span(lo, hi), a, b) == Span(lo, a - 1) + Span(b + 1, hi)
  {
    hide Outside, Span;
    var m, n := if lo < a then a - 1 else lo - 1, if b < hi then b else hi;
    var low, mid, high := Span(lo, m), Span(m + 1, n), Span(n + 1, hi);
    SpanSplit(lo, m, hi);
    SpanSplit(m + 1, n, hi);
    OutsideConcat(low, mid + high, a, b);
    OutsideConcat(mid, high, a, b);
    AllOutside(low, a, b);
    NoneOutside(mid, a, b);
    AllOutside(high, a, b);
    assert [] + high == high;
    SpanEmpty(lo, a - 1, m);
    SpanEmpty(b + 1, hi, hi);
    assert low == Span(lo, a - 1) && high == Span(b + 1, hi);
  }

  lemma SpanEmpty(lo: int, x: int, y: int)
    requires x == y || (x < lo && y < lo)
    ensures Span(lo, x) == Span(lo, y)
  {
  }

  lemma {:induction false} InsertPast(a: seq<int>, b: seq<int>, v: int)
    requires a != [] && forall i :: 0 <= i < |a| ==> a[i] < v
    requires forall i :: 0 <= i < |a| - 1 ==> a[i] != v - 1
    ensures Insert(a + b, false, v) == a + Insert(b, a[|a| - 1] == v - 1, v)
  {
    var rest := a[1..];
    assert (a + b)[0] == a[0] && (a + b)[1..] == rest + b;
    if rest == [] {
      assert rest + b == b && a == [a[0]];
    } else {
      InsertPast(rest, b, v);
      assert a == [a[0]] + rest;
      Reassociate([a[0]], rest, Insert(b, a[|a| - 1] == v - 1, v));
    }
  }

  // ---------------------------------------------------------------- the dump

  ghost predicate Full(segs: seq<Range>) {
    forall i :: 0 <= i < |segs| ==> segs[i].first <= segs[i].last
  }

  lemma FlattenFirst(r: Range, rest: seq<Range>)
    requires r.first <= r.last && Full(rest)
    ensures Full([r] + rest) && Flatten([r] + rest) == Span(r.first, r.last) + Flatten(rest)
  {
    FlattenHead(r, rest);
    assert Values(r) == Span(r.first, r.last);
  }

  lemma {:induction false} FlattenConcat(s: seq<Range>, t: seq<Range>)
    requires Full(s) && Full(t)
    ensures Full(s + t) && Flatten(s + t) == Flatten(s) + Flatten(t)
  {
    hide Values;
    if s == [] {
      assert s + t == t && [] + Flatten(t) == Flatten(t);
    } else {
      FlattenConcat(s[1..], t);
      assert (s + t)[1..] == s[1..] + t;
      Reassociate(Values(s[0]), Flatten(s[1..]), Flatten(t));
    }
  }

  lemma FlattenOne(r: Range)
    requires r.first <= r.last
    ensures Flatten([r]) == Span(r.first, r.last)
  {
    FlattenFirst(r, []);
    assert [r] + [] == [r] && Span(r.first, r.last) + [] == Span(r.first, r.last);
  }

  lemma CutDump(r: Range, a: int, b: int)
    requires r.first <= r.last && a <= b
    ensures Full(Cut(r, a, b)) && Flatten(Cut(r, a, b)) == Outside(Span(r.first, r.last), a, b)
  {
    hide Flatten, Outside;
    if r.last < a || b < r.first {
      FlattenOne(r);
      AllOutside(Span(r.first, r.last), a, b);
    } else {
      SpanOutside(r.first, r.last, a, b);
      CutParts(r, a, b);
    }
  }

  lemma CutParts(r: Range, a: int, b: int)
    requires r.first <= r.last && a <= b && !(r.last < a || b < r.first)
    ensures Full(Cut(r, a, b)) && Flatten(Cut(r, a, b)) == Span(r.first, a - 1) + Span(b + 1, r.last)
  {
    var low := if r.first < a then [Range(r.first, a - 1)] else [];
    var high := if b < r.last then [Range(b + 1, r.last)] else [];
    if r.first < a { FlattenOne(Range(r.first, a - 1)); }
    if b < r.last { FlattenOne(Range(b + 1, r.last)); }
    FlattenConcat(low, high);
  }

  /** Reserve leaves of the dump the values outside the range, in their order. */
  lemma {:induction false} ReserveDump(segs: seq<Range>, a: int, b: int)
    requires Full(segs) && a <= b
    ensures Full(ReserveSegs(segs, a, b))
    ensures Flatten(ReserveSegs(segs, a, b)) == Outside(Flatten(segs), a, b)
  {
    hide Outside, Cut, Flatten;
    if segs == [] {
      NothingOutside(a, b);
    } else {
      var r, rest := segs[0], segs[1..];
      assert segs == [r] + rest;
      ReserveDump(rest, a, b);
      FlattenFirst(r, rest);
      CutDump(r, a, b);
      FlattenConcat(Cut(r, a, b), ReserveSegs(rest, a, b));
      OutsideConcat(Span(r.first, r.last), Flatten(rest), a, b);
    }
  }

  lemma NothingOutside(a: int, b: int)
    ensures Outside([], a, b) == [] && Flatten([]) == []
  {
  }

  /** Use deletes the first occurrence of the value from the dump, in place. */
  lemma {:induction false} UseDump(segs: seq<Range>, v: int)
    requires Full(segs) && UseSegs(segs, v).Some?
    ensures Full(UseSegs(segs, v).value)
    ensures Flatten(UseSegs(segs, v).value) == RemoveFirst(Flatten(segs), v)
  {
    hide RemoveFirst, Cut, Flatten;
    var r, rest := segs[0], segs[1..];
    assert segs == [r] + rest;
    FlattenFirst(r, rest);
    if r.Has(v) {
      TakenFromHead(r, rest, v);
    } else {
      UseDump(rest, v);
      FlattenFirst(r, UseSegs(rest, v).value);
      RemoveFirstPast(Span(r.first, r.last), v, Flatten(rest));
    }
  }

  lemma TakenFromHead(r: Range, rest: seq<Range>, v: int)
    requires r.Has(v) && Full(rest)
    ensures Full(Cut(r, v, v) + rest)
    ensures Flatten(Cut(r, v, v) + rest) == RemoveFirst(Span(r.first, r.last) + Flatten(rest), v)
  {
    hide RemoveFirst, Cut, Flatten;
    var low, high, f := Span(r.first, v - 1), Span(v + 1, r.last), Flatten(rest);
    CutParts(r, v, v);
    FlattenConcat(Cut(r, v, v), rest);
    SpanSplit(r.first, v - 1, r.last);
    SpanSplit(v, v, r.last);
    assert Span(v, v) == [v];
    RemoveFirstAt(low, v, high + f);
    assert low + ([v] + high) + f == low + ([v] + (high + f));
    Reassociate(low, high, f);
  }

  /** Growing a segment by `v` puts `v` behind its values. */
  lemma ExtendDump(segs: seq<Range>)
    requires segs != [] && Full(segs)
    ensures Full(ExtendLast(segs))
    ensures var r := segs[0];
            Flatten(ExtendLast(segs)) == Span(r.first, r.last) + ([r.last + 1] + Flatten(segs[1..]))
  {
    hide Flatten;
    var r := segs[0];
    SpanSplit(r.first, r.last, r.last + 1);
    assert Span(r.last + 1, r.last + 1) == [r.last + 1];
    if |segs| > 1 && r.last + 2 == segs[1].first {
      var n, rest := segs[1], segs[2..];
      assert segs[1..] == [n] + rest;
      FlattenFirst(n, rest);
      FlattenFirst(Range(r.first, n.last), rest);
      SpanSplit(r.first, r.last + 1, n.last);
      Reassociate(Span(r.first, r.last), [r.last + 1], Span(n.first, n.last) + Flatten(rest));
      Reassociate(Span(r.first, r.last) + [r.last + 1], Span(n.first, n.last), Flatten(rest));
    } else {
      FlattenFirst(Range(r.first, r.last + 1), segs[1..]);
      Reassociate(Span(r.first, r.last), [r.last + 1], Flatten(segs[1..]));
    }
  }

  /** A value walks past a segment below it. */
  lemma PastSegment(r: Range, f: seq<int>, v: int)
    requires r.first <= r.last < v
    ensures Insert(Span(r.first, r.last) + f, false, v) == Span(r.first, r.last) + Insert(f, r.last == v - 1, v)
  {
    InsertPast(Span(r.first, r.last), f, v);
  }

  lemma {:induction false} FreeTailDump(segs: seq<Range>, v: int)
    requires Full(segs) && FreeTail(segs, v).Some?
    ensures Full(FreeTail(segs, v).value)
    ensures Flatten(FreeTail(segs, v).value) == Insert(Flatten(segs), false, v)
  {
    hide Flatten, Insert, ExtendLast;
    assert Span(v, v) == [v];
    InsertInFront([], false, v);
    if segs == [] {
      FlattenOne(Range(v, v));
      NothingOutside(0, 0);
    } else {
      var r, rest := segs[0], segs[1..];
      assert segs == [r] + rest;
      FlattenFirst(r, rest);
      match PositionOf(r, v)
      case Before =>
        FlattenFirst(Range(v, v), segs);
        InsertInFront(Flatten(segs), false, v);
      case AdjacentToTheFront =>
        FlattenFirst(Range(v, r.last), rest);
        SpanSplit(v, v, r.last);
        InsertInFront(Flatten(segs), false, v);
        Reassociate([v], Span(r.first, r.last), Flatten(rest));
      case AdjacentToTheBack =>
        ExtendDump(segs);
        PastSegment(r, Flatten(rest), v);
        InsertInFront(Flatten(rest), true, v);
      case After =>
        FreeTailDump(rest, v);
        FlattenFirst(r, FreeTail(rest, v).value);
        PastSegment(r, Flatten(rest), v);
    }
  }

  lemma InsertInFront(q: seq<int>, touch: bool, v: int)
    requires touch || q == [] || q[0] > v
    ensures Insert(q, touch, v) == [v] + q
  {
  }

  /** An accepted Free leaves the values of the head in front and puts `v` behind them: in front of the first
      greater value, or right behind `v - 1`. */
  lemma FreeDump(segs: seq<Range>, v: int)
    requires Full(segs) && FreeSegs(segs, v).Some?
    ensures Full(FreeSegs(segs, v).value)
    ensures Flatten(FreeSegs(segs, v).value) ==
            if segs == [] then [v]
            else Span(segs[0].first, segs[0].last) + Insert(Flatten(segs[1..]), segs[0].last == v - 1, v)
  {
    hide Flatten, Insert, ExtendLast, FreeTail;
    assert Span(v, v) == [v];
    FlattenOne(Range(v, v));
    if segs != [] {
      var r, rest := segs[0], segs[1..];
      if PositionOf(r, v) == AdjacentToTheBack {
        ExtendDump(segs);
        InsertInFront(Flatten(rest), true, v);
      } else {
        FreeTailDump(rest, v);
        FlattenFirst(r, FreeTail(rest, v).value);
      }
    }
  }

  lemma UsedQueue(segs: seq<Range>, v: int, lo: int, hi: int)
    requires Within(segs, lo, hi) && UseSegs(segs, v).Some?
    ensures Within(UseSegs(segs, v).value, lo, hi)
    ensures Flatten(UseSegs(segs, v).value) == RemoveFirst(Flatten(segs), v)
  {
    UseCounts(segs, v, lo, hi);
    UseDump(segs, v);
  }

  lemma ReservedQueue(segs: seq<Range>, a: int, b: int, lo: int, hi: int)
    requires Within(segs, lo, hi) && a <= b
    ensures Within(ReserveSegs(segs, a, b), lo, hi)
    ensures Flatten(ReserveSegs(segs, a, b)) == Outside(Flatten(segs), a, b)
  {
    ReserveRemoves(segs, a, b, lo, hi);
    ReserveDump(segs, a, b);
  }

  // ---------------------------------------------------------------- runs

  /** The queue of a pool: its values in the order in which Allocate would grant them. */
  ghost function Queue(p: Pool): seq<int>
    requires Full(p.segs)
  {
    Flatten(p.segs)
  }

  /** One call other than Free, on the queue alone. */
  function QueueCall(q: seq<int>, inRange: bool, op: Op): (seq<int>, Reply) {
    match op
    case Allocate => if q == [] then (q, Refused) else (q[1..], Granted(q[0]))
    case Use(v) => if v in q then (RemoveFirst(q, v), Granted(v)) else (q, Refused)
    case Reserve(a, b) => if inRange then (Outside(q, a, b), Accepted) else (q, Refused)
    case Free(_) => (q, Refused)
  }

  function InRange(first: int, last: int, op: Op): bool {
    op.Reserve? && op.a <= op.b && first <= op.a && op.b <= last
  }

  lemma CallOnQueue(p: Pool, op: Op)
    requires p.Ok() && !op.Free?
    ensures var (q, reply) := Apply(p, op);
            && q.Ok() && q.first == p.first && q.last == p.last
            && (Queue(q), reply) == QueueCall(Queue(p), InRange(p.first, p.last, op), op)
  {
    hide Flatten, RemoveFirst, Outside, UseSegs, ReserveSegs, FreeSet, Separate, Total;
    ApplyKeepsOk(p, op);
    ApplyReplies(p, op);
    FlattenLists(p.segs, p.first, p.last);
    FreeSetEmpty(p.segs, p.first, p.last);
    match op
    case Allocate =>
      NothingOutside(0, 0);
      if p.segs != [] { AllocateDropsFirst(p.segs, p.first, p.last); }
    case Use(v) =>
      UseCounts(p.segs, v, p.first, p.last);
      if UseSegs(p.segs, v).Some? { UseDump(p.segs, v); }
    case Reserve(a, b) =>
      if p.Contains(a, b) { ReserveDump(p.segs, a, b); }
  }

  function QueueAt(q: seq<int>, first: int, last: int, ops: seq<Op>, n: nat): seq<int>
    requires n <= |ops|
  {
    if n == 0 then q
    else QueueCall(QueueAt(q, first, last, ops, n - 1), InRange(first, last, ops[n - 1]), ops[n - 1]).0
  }

  /** In every run of Allocate, Use and Reserve the replies are those of a queue that starts as the flattened
      dump: Allocate takes its front, Use deletes a value in place, Reserve keeps the rest in order. */
  lemma {:induction false} RunIsQueue(p: Pool, ops: seq<Op>, n: nat)
    requires p.Ok() && n <= |ops| && forall i :: 0 <= i < |ops| ==> !ops[i].Free?
    ensures var r := PoolAt(p, ops, n);
            r.Ok() && r.first == p.first && r.last == p.last && Queue(r) == QueueAt(Queue(p), p.first, p.last, ops, n)
    ensures n < |ops| ==>
              ReplyAt(p, ops, n) ==
              QueueCall(QueueAt(Queue(p), p.first, p.last, ops, n), InRange(p.first, p.last, ops[n]), ops[n]).1
  {
    hide Apply, Queue, QueueCall, InRange;
    if n > 0 {
      RunIsQueue(p, ops, n - 1);
      CallOnQueue(PoolAt(p, ops, n - 1), ops[n - 1]);
    }
    if n < |ops| {
      CallOnQueue(PoolAt(p, ops, n), ops[n]);
    }
  }

  /** On a new pool a Use in the middle leaves the lower values in front of the upper ones. */
  lemma UseKeepsOrder(first: int, last: int, v: int)
    requires first <= v <= last
    ensures var p := Apply(NewPool(first, last), Use(v)).0;
            p.Ok() && Queue(p) == Span(first, v - 1) + Span(v + 1, last)
  {
    FlattenOne(Range(first, last));
    assert Span(first, last)[v - first] == v;
    hide Flatten, RemoveFirst, Apply;
    CallOnQueue(NewPool(first, last), Use(v));
    SpanSplit(first, v - 1, last);
    SpanSplit(v, v, last);
    assert Span(v, v) == [v];
    RemoveFirstAt(Span(first, v - 1), v, Span(v + 1, last));
  }

  /** And so does a Reserve. */
  lemma ReserveKeepsOrder(first: int, last: int, a: int, b: int)
    requires first <= a <= b <= last
    ensures var p := Apply(NewPool(first, last), Reserve(a, b)).0;
            p.Ok() && Queue(p) == Span(first, a - 1) + Span(b + 1, last)
  {
    FlattenOne(Range(first, last));
    hide Flatten, Outside, Apply;
    CallOnQueue(NewPool(first, last), Reserve(a, b));
    SpanOutside(first, last, a, b);
  }
}
