/** The pool as the program runs it: a singly linked list of segments edited in place. Each method is
    proved against the list operation of module Segments and against the set of free integers. */
module LazyReusePools {
  import opened Options
  import opened Segments
  import opened Basics
  import PoolRuns
  import PoolOrders

  class Segment {
    var first: int
    var last: int
    var next: Segment?

    constructor (first: int, last: int, next: Segment?)
      ensures this.first == first && this.last == last && this.next == next
    {
      this.first, this.last, this.next := first, last, next;
    }

    function RelativePositionOf(value: int): Position
      reads this
    {
      PositionOf(Range(first, last), value)
    }
  }

  /** Element `i` replaced by the elements of `mid`: every edit of the list has this form. */
  ghost function Splice<T>(s: seq<T>, i: nat, mid: seq<T>): (r: seq<T>)
    requires i < |s|
    ensures |r| == |s| - 1 + |mid|
    ensures forall k :: 0 <= k < i ==> r[k] == s[k]
    ensures |mid| >= 1 ==> r[i] == mid[0]
    ensures |mid| >= 2 ==> r[i + 1] == mid[1]
    ensures forall k :: i + |mid| <= k < |r| ==> r[k] == s[k - |mid| + 1]
  {
    s[..i] + mid + s[i + 1..]
  }

  class LazyReusePool {
    var head: Segment?
    const first: int
    const last: int
    var remain: int

    ghost var nodes: seq<Segment>  // the list that starts at head, in order
    ghost var segs: seq<Range>     // the segments those nodes hold
    ghost var repr: set<Segment>   // every node the pool has owned so far

    /** The list is acyclic, ends in null and holds `segs`. */
    ghost predicate Linked()
      reads this`head, this`nodes, this`segs, this`repr, repr
    {
      && |nodes| == |segs|
      && (forall i :: 0 <= i < |nodes| ==> nodes[i] in repr)
      && head == (if nodes == [] then null else nodes[0])
      && (forall i {:trigger nodes[i].next} :: 0 <= i < |nodes| ==>
            nodes[i].next == if i + 1 < |nodes| then nodes[i + 1] else null)
      && (forall i :: 0 <= i < |nodes| ==> nodes[i].first == segs[i].first && nodes[i].last == segs[i].last)
      && Distinct(nodes)
    }

    /** Holds after every call, even for clients that free a value twice. */
    ghost predicate Valid()
      reads this, repr
    {
      first <= last && Linked() && Within(segs, first, last) && remain == Total(segs)
    }

    /** The pool as a value, for the whole-run properties of PoolRuns. */
    ghost function Value(): PoolRuns.Pool
      reads this
    {
      PoolRuns.Pool(first, last, segs)
    }

    /** The free values in the order in which Allocate would grant them. */
    ghost function Queue(): seq<int>
      reads this, repr
      requires Valid()
    {
      PoolRuns.Flatten(segs)
    }

    /** `cur` is the node at `i` and `prev` the one before it. */
    ghost predicate At(prev: Segment?, cur: Segment?, i: int)
      reads this
    {
      && 0 <= i <= |nodes| == |segs|
      && cur == (if i < |nodes| then nodes[i] else null)
      && prev == (if i == 0 then null else nodes[i - 1])
      && (cur != null ==> cur in repr) && (prev != null ==> prev in repr)
    }

    /** What the list says about the node at `i`. */
    lemma NodeAt(i: nat)
      requires Linked() && i < |nodes|
      ensures |nodes| == |segs| && nodes[i].first == segs[i].first && nodes[i].last == segs[i].last
      ensures At(nodes[i], nodes[i].next, i + 1)
    {
    }

    lemma HeadAt()
      requires Linked()
      ensures At(null, head, 0) && (head != null <==> nodes != [])
    {
    }

    constructor (first: int, last: int)
      requires first <= last
      ensures this.first == first && this.last == last && Valid()
      ensures fresh(repr) && segs == [Range(first, last)] && Separate(segs)
      ensures FreeSet(segs) == Interval(first, last)
    {
      var h := new Segment(first, last, null);
      this.head := h;
      this.first, this.last := first, last;
      this.remain := last - first + 1;
      this.nodes, this.segs, this.repr := [h], [Range(first, last)], {h};
      new;
      FreeSetOne(Range(first, last));
    }

    /** NewLazyReusePool: null is the error for an empty range. */
    static method New(first: int, last: int) returns (p: LazyReusePool?)
      ensures p == null <==> first > last
      ensures p != null ==> p.Valid() && fresh(p) && fresh(p.repr) && p.Value() == PoolRuns.NewPool(first, last)
    {
      if first > last {
        return null;
      }
      p := new LazyReusePool(first, last);
    }

    // -------------------------------------------------------------- edits of one node

    method SetBounds(cur: Segment, ghost i: nat, lo: int, hi: int)
      requires Linked() && i < |nodes| && nodes[i] == cur
      modifies this`segs, cur`first, cur`last
      ensures Linked() && nodes == old(nodes) && segs == Splice(old(segs), i, [Range(lo, hi)])
    {
      hide Splice, Distinct;
      ghost var s := segs;
      NotItself(nodes, i);
      cur.first, cur.last := lo, hi;
      segs := Splice(s, i, [Range(lo, hi)]);
      BoundsReplaced(nodes, s, i, Range(lo, hi));
    }

    /** Insert the new node `n`, which already points at the successor, behind the node at `i`. */
    method InsertAfter(cur: Segment, ghost i: nat, n: Segment)
      requires Linked() && i < |nodes| && nodes[i] == cur
      requires n !in repr && n.next == cur.next
      modifies this`nodes, this`segs, this`repr, cur`next
      ensures repr == old(repr) + {n}
      ensures Linked() && nodes == Splice(old(nodes), i, [cur, n])
      ensures segs == Splice(old(segs), i, [old(segs)[i], Range(n.first, n.last)])
    {
      hide Splice, Distinct;
      ghost var ns, s := nodes, segs;
      NotItself(ns, i);
      InsertDistinct(ns, n, i);
      cur.next := n;
      nodes, repr := Splice(ns, i, [cur, n]), repr + {n};
      segs := Splice(s, i, [s[i], Range(n.first, n.last)]);
      assert nodes[i] == cur && nodes[i + 1] == n && segs[i] == s[i] && segs[i + 1] == Range(n.first, n.last);
      InsertLinks(ns, i, n);
    }

    /** Unlink the node at `i`. */
    method Unlink(prev: Segment?, cur: Segment, ghost i: nat)
      requires Linked() && i < |nodes| && At(prev, cur, i)
      modifies this`nodes, this`segs, this`head, (if prev == null then {} else {prev})`next
      ensures Linked() && nodes == Splice(old(nodes), i, []) && segs == Splice(old(segs), i, [])
      ensures At(prev, cur.next, i)
    {
      if prev == null {
        UnlinkHead(cur);
      } else {
        UnlinkAfter(prev, cur, i);
      }
    }

    method UnlinkHead(cur: Segment)
      requires Linked() && head == cur
      modifies this`nodes, this`segs, this`head
      ensures Linked() && nodes == Splice(old(nodes), 0, []) && segs == Splice(old(segs), 0, []) && head == cur.next
    {
      hide Splice, Distinct;
      ghost var ns := nodes;
      RemoveDistinct(ns, 0);
      head := cur.next;
      nodes, segs := Splice(ns, 0, []), Splice(segs, 0, []);
    }

    method UnlinkAfter(prev: Segment, cur: Segment, ghost i: nat)
      requires Linked() && 0 < i < |nodes| && At(prev, cur, i)
      modifies this`nodes, this`segs, prev`next
      ensures Linked() && nodes == Splice(old(nodes), i, []) && segs == Splice(old(segs), i, [])
      ensures At(prev, cur.next, i)
    {
      hide Splice, Distinct;
      ghost var ns := nodes;
      NotItself(ns, i - 1);
      RemoveDistinct(ns, i);
      prev.next := cur.next;
      nodes, segs := Splice(ns, i, []), Splice(segs, i, []);
      RemoveLinks(ns, i);
    }

    /** Shorten the node at `i` to end at `cut` and put the rest, from `from` on, into a new node. */
    method SplitAt(cur: Segment, ghost i: nat, cut: int, from: int)
      requires Linked() && i < |nodes| && nodes[i] == cur
      modifies this`nodes, this`segs, this`repr, cur
      ensures Linked() && |nodes| == |old(nodes)| + 1 && nodes[i] == cur
      ensures fresh(repr - old(repr))
      ensures segs == Splice(old(segs), i, [Range(old(segs)[i].first, cut), Range(from, old(segs)[i].last)])
    {
      hide Splice, Distinct;
      ghost var s, ns := segs, nodes;
      var n := new Segment(from, cur.last, cur.next);
      SetBounds(cur, i, cur.first, cut);
      InsertAfter(cur, i, n);
      assert nodes[i] == cur;
      SpliceTwice(s, i, Range(s[i].first, cut), [Range(s[i].first, cut), Range(from, s[i].last)]);
    }

    /** Grow the node at `i` by one at its back and absorb its successor when they now touch. */
    method ExtendLastAt(cur: Segment, ghost i: nat)
      requires Linked() && i < |nodes| == |segs| && nodes[i] == cur
      requires cur.first == segs[i].first && cur.last == segs[i].last
      modifies this`nodes, this`segs, this`head, cur
      ensures Linked() && segs == ExtendedAt(old(segs), i)
    {
      hide Splice, ExtendedAt, LazyReusePool.Linked;
      ghost var s := segs;
      SetBounds(cur, i, cur.first, cur.last + 1);
      var touches := NextTouches(cur, i);
      if touches {
        AbsorbNext(cur, i);
        ExtendMerges(s, i);
      } else {
        ExtendGrows(s, i);
      }
    }

    method NextTouches(cur: Segment, ghost i: nat) returns (touches: bool)
      requires Linked() && i < |nodes| && nodes[i] == cur
      ensures touches <==> i + 1 < |segs| && segs[i].last + 1 == segs[i + 1].first
    {
      var succ := cur.next;
      touches := succ != null && cur.last + 1 == succ.first;
    }

    method AbsorbNext(cur: Segment, ghost i: nat)
      requires Linked() && i + 1 < |segs| && i < |nodes| && nodes[i] == cur
      modifies this`nodes, this`segs, this`head, cur
      ensures Linked()
      ensures segs == Splice(Splice(old(segs), i, [Range(old(segs)[i].first, old(segs)[i + 1].last)]), i + 1, [])
    {
      hide Splice, Distinct;
      var succ := cur.next;
      SetBounds(cur, i, cur.first, succ.last);
      UnlinkAfter(cur, succ, i + 1);
    }

    // -------------------------------------------------------------- operations

    method Allocate() returns (res: int, ok: bool)
      requires Valid()
      modifies this, repr
      ensures Valid()
      ensures repr == old(repr)
      ensures PoolRuns.Apply(old(Value()), PoolRuns.Allocate)
           == (Value(), if ok then PoolRuns.Granted(res) else PoolRuns.Refused)
      ensures ok <==> FreeSet(old(segs)) != {}
      ensures ok && Separate(old(segs)) ==>
                res in FreeSet(old(segs)) && FreeSet(segs) == FreeSet(old(segs)) - {res} && Separate(segs)
      ensures ok ==> old(Queue()) == [res] + Queue()
    {
      hide FreeSet, Separate, Total, Within, PoolRuns.Flatten;
      ghost var s := segs;
      PoolRuns.FreeSetEmpty(s, first, last);
      if head == null {
        return 0, false;
      }
      AllocateRemovesFirst(s, first, last);
      PoolRuns.AllocateDropsFirst(s, first, last);
      NonEmptyHead(s, first, last);
      res := TakeFirst();
      remain := remain - 1;
      return res, true;
    }

    /** Take the first value of the head, and unlink the head when it is used up. */
    method TakeFirst() returns (res: int)
      requires Linked() && head != null && segs[0].first <= segs[0].last
      modifies this`nodes, this`segs, this`head, head
      ensures Linked()
      ensures res == old(segs)[0].first && segs == AllocateSegs(old(segs))
    {
      hide Splice, Distinct, AllocateSegs, LazyReusePool.Linked;
      ghost var s := segs;
      HeadAt();
      NodeAt(0);
      res := head.first;
      FirstTaken(s);
      SetBounds(head, 0, head.first + 1, head.last);
      HeadAt();
      NodeAt(0);
      if head.first > head.last {
        UnlinkHead(head);
      }
    }

    /** Remove `value` from the node at `i`: unlink a node of one value, otherwise trim or split it. */
    method TakeAt(prev: Segment?, cur: Segment, ghost i: nat, value: int)
      requires Linked() && i < |nodes| && At(prev, cur, i) && cur.first <= value <= cur.last
      modifies this`nodes, this`segs, this`head, this`repr, cur, if prev == null then {} else {prev}
      ensures Linked() && fresh(repr - old(repr))
      ensures segs == Splice(old(segs), i, Cut(old(segs)[i], value, value))
    {
      hide Splice, Distinct;
      ghost var s, c := segs, Cut(segs[i], value, value);
      if cur.first == cur.last {
        Unlink(prev, cur, i);
        assert c == [];
      } else if value == cur.first {
        SetBounds(cur, i, cur.first + 1, cur.last);
        assert c == [Range(s[i].first + 1, s[i].last)];
      } else if value == cur.last {
        SetBounds(cur, i, cur.first, cur.last - 1);
        assert c == [Range(s[i].first, s[i].last - 1)];
      } else {
        SplitAt(cur, i, value - 1, value + 1);
        assert c == [Range(s[i].first, value - 1), Range(value + 1, s[i].last)];
      }
    }

    method Use(value: int) returns (ok: bool)
      requires Valid()
      modifies this, repr
      ensures Valid() && fresh(repr - old(repr))
      ensures PoolRuns.Apply(old(Value()), PoolRuns.Use(value))
           == (Value(), if ok then PoolRuns.Granted(value) else PoolRuns.Refused)
      ensures ok <==> value in FreeSet(old(segs))
      ensures ok && Separate(old(segs)) ==> FreeSet(segs) == FreeSet(old(segs)) - {value} && Separate(segs)
      ensures ok ==> Queue() == PoolOrders.RemoveFirst(old(Queue()), value)
    {
      hide FreeSet, Separate, UseSegs, Total, Within, Cut, Splice, LazyReusePool.Linked;
      hide PoolRuns.Flatten, PoolOrders.RemoveFirst;
      ghost var s := segs;
      UseCounts(s, value, first, last);
      if UseSegs(s, value).Some? {
        PoolOrders.UsedQueue(s, value, first, last);
      }
      if Separate(s) && UseSegs(s, value).Some? {
        UseRemoves(s, value, first, last);
      }
      ghost var i;
      var prev, cur;
      prev, cur, i := Find(value);
      if cur == null {
        UseNowhere(s, value);
        return false;
      }
      UseAt(s, i, value);
      TakeAt(prev, cur, i, value);
      remain := remain - 1;
      return true;
    }

    /** The walk of Use: the first node that holds `value`, and the node before it. */
    method Find(value: int) returns (prev: Segment?, cur: Segment?, ghost i: nat)
      requires Linked()
      ensures At(prev, cur, i)
      ensures cur != null ==> segs[i].Has(value) && cur.first <= value <= cur.last
      ensures forall k :: 0 <= k < i ==> !segs[k].Has(value)
    {
      prev, cur, i := null, head, 0;
      while cur != null
        invariant At(prev, cur, i)
        invariant forall k :: 0 <= k < i ==> !segs[k].Has(value)
        decreases |nodes| - i
      {
        if cur.RelativePositionOf(value) == WithinThisSegment {
          return;
        }
        prev := cur;
        cur := cur.next;
        i := i + 1;
      }
    }

    method Free(value: int) returns (ok: bool)
      requires Valid()
      modifies this, repr
      ensures Valid() && fresh(repr - old(repr))
      ensures PoolRuns.Apply(old(Value()), PoolRuns.Free(value))
           == (Value(), if ok then PoolRuns.Accepted else PoolRuns.Refused)
      ensures ok ==> first <= value <= last && FreeSet(segs) == FreeSet(old(segs)) + {value}
      ensures first <= value <= last && value !in FreeSet(old(segs)) ==> ok
      ensures ok && Separate(old(segs)) ==> (Separate(segs) <==> value !in FreeSet(old(segs)))
    {
      hide FreeSet, Separate, FreeSegs, Total, Within;
      ghost var s := segs;
      if value < first || last < value {
        return false;
      }
      ok := FreeInRange(value);
      FreeAdds(s, value, first, last);
      TotalIsSize(s, first, last);
      if ok {
        FreeKeepsSeparate(s, value, first, last);
        remain := remain + 1;
      }
    }

    method FreeInRange(value: int) returns (ok: bool)
      requires Linked() && Within(segs, first, last)
      modifies this`nodes, this`segs, this`head, this`repr, repr
      ensures Linked() && fresh(repr - old(repr))
      ensures FreeSegs(old(segs), value) == if ok then Some(segs) else None
      ensures !ok ==> segs == old(segs)
    {
      if head == null {
        FirstSegment(value);
        return true;
      }
      hide Splice, ExtendLast, Distinct, FreeTail;
      ghost var s := segs;
      var pos := head.RelativePositionOf(value);
      if pos == WithinThisSegment {
        return false;
      } else if pos == AdjacentToTheBack {
        assert s[0..] == s && s[..0] + ExtendLast(s) == ExtendLast(s);
        ExtendLastAt(head, 0);
        return true;
      }
      if head.next == null {
        var n := new Segment(value, value, null);
        InsertAfter(head, 0, n);
        AfterAt(s, 0, Range(value, value));
        return true;
      }
      ok := FreeBehindHead(value);
    }

    /** Free into an empty list. */
    method FirstSegment(value: int)
      requires Linked() && head == null
      modifies this`nodes, this`segs, this`head, this`repr
      ensures Linked() && old(segs) == [] && segs == [Range(value, value)] && fresh(repr - old(repr))
    {
      head := new Segment(value, value, null);
      nodes, segs, repr := [head], [Range(value, value)], repr + {head};
    }

    /** Free's edit at the node `i`, when `value` is not after it or it is the last node. */
    method FreeAt(prev: Segment, cur: Segment, ghost i: nat, value: int) returns (ok: bool)
      requires Linked() && 0 < i < |nodes| && At(prev, cur, i)
      requires PositionOf(segs[i], value) == After ==> i + 1 == |nodes|
      modifies this`nodes, this`segs, this`head, this`repr, prev, cur
      ensures Linked() && fresh(repr - old(repr))
      ensures Spliced(old(segs)[..i], FreeTail(old(segs)[i..], value)) == if ok then Some(segs) else None
      ensures !ok ==> segs == old(segs)
    {
      hide Splice, Distinct, ExtendLast;
      ghost var s, ns := segs, nodes;
      assert s[i..][0] == s[i];
      match cur.RelativePositionOf(value) {
      case Before =>
        var temp := new Segment(value, value, null);
        temp.next := cur;
        InsertAfter(prev, i - 1, temp);
        BeforeAt(s, i, Range(value, value));
        return true;
      case AdjacentToTheFront =>
        SetBounds(cur, i, value, cur.last);
        FrontAt(s, i, Range(value, s[i].last));
        return true;
      case WithinThisSegment =>
        return false;
      case AdjacentToTheBack =>
        ExtendLastAt(cur, i);
        return true;
      case After =>
        var n := new Segment(value, value, null);
        InsertAfter(cur, i, n);
        AfterAt(s, i, Range(value, value));
        return true;
      }
    }

    /** The loop of Free over the nodes behind the head. */
    method FreeBehindHead(value: int) returns (ok: bool)
      requires Linked() && |nodes| > 1
      modifies this`nodes, this`segs, this`head, this`repr, repr
      ensures Linked() && fresh(repr - old(repr))
      ensures Prepend(old(segs)[0], FreeTail(old(segs)[1..], value)) == if ok then Some(segs) else None
      ensures !ok ==> segs == old(segs)
    {
      ghost var s := segs;
      var prev := head;
      var cur := head.next;
      ghost var i := 1;
      while cur.RelativePositionOf(value) == After && cur.next != null
        invariant Linked() && 0 < i < |nodes| && nodes == old(nodes) && segs == s && At(prev, cur, i)
        invariant forall k :: 1 <= k < i ==> PositionOf(s[k], value) == After
        decreases |nodes| - i
      {
        prev, cur := cur, cur.next;
        i := i + 1;
      }
      FreeTailAt(s, i, value);
      ok := FreeAt(prev, cur, i, value);
    }

    /** One turn of the Reserve loop at the node `i`; `kept` is false when the node was unlinked. */
    method CutAt(prev: Segment?, cur: Segment, ghost i: nat, a: int, b: int) returns (kept: bool)
      requires Linked() && i < |nodes| && At(prev, cur, i) && cur.first <= cur.last && a <= b
      modifies this`nodes, this`segs, this`head, this`repr, this`remain, cur, if prev == null then {} else {prev}
      ensures Linked() && fresh(repr - old(repr))
      ensures segs == Splice(old(segs), i, Cut(old(segs)[i], a, b))
      ensures kept <==> Cut(old(segs)[i], a, b) != []
      ensures if kept then At(cur, cur.next, i + 1) else At(prev, cur.next, i)
      ensures remain == old(remain) - Overlap(old(segs)[i], a, b)
    {
      hide Splice, LazyReusePool.Linked;
      NodeAt(i);
      ghost var s, c := segs, Cut(segs[i], a, b);
      kept := true;
      if a <= cur.first && cur.first <= b && cur.last > b {
        remain := remain - (b - cur.first + 1);
        SetBounds(cur, i, b + 1, cur.last);
        NodeAt(i);
        assert c == [Range(b + 1, s[i].last)];
      } else if cur.first < a && cur.last >= a && cur.last <= b {
        remain := remain - (cur.last - a + 1);
        SetBounds(cur, i, cur.first, a - 1);
        NodeAt(i);
        assert c == [Range(s[i].first, a - 1)];
      } else if cur.first < a && cur.last > b {
        SplitAt(cur, i, a - 1, b + 1);
        remain := remain - (b - a + 1);
        NodeAt(i);
        assert c == [Range(s[i].first, a - 1), Range(b + 1, s[i].last)];
      } else if a <= cur.first && cur.last <= b {
        remain := remain - (cur.last - cur.first + 1);
        Unlink(prev, cur, i);
        kept := false;
        assert c == [];
      } else {
        assert c == [s[i]];
        SpliceSame(s, i);
      }
    }

    method Reserve(a: int, b: int) returns (ok: bool)
      requires Valid()
      modifies this, repr
      ensures Valid() && fresh(repr - old(repr))
      ensures PoolRuns.Apply(old(Value()), PoolRuns.Reserve(a, b))
           == (Value(), if ok then PoolRuns.Accepted else PoolRuns.Refused)
      ensures ok <==> a <= b && first <= a && b <= last
      ensures ok ==> FreeSet(segs) == FreeSet(old(segs)) - Interval(a, b)
      ensures ok && Separate(old(segs)) ==>
                Separate(segs) && remain == old(remain) - |FreeSet(old(segs)) * Interval(a, b)|
      ensures ok ==> Queue() == PoolOrders.Outside(old(Queue()), a, b)
    {
      hide FreeSet, Separate, Total, Within, ReserveSegs, PoolRuns.Flatten, PoolOrders.Outside;
      ghost var s := segs;
      if !(a <= b && first <= a && b <= last) {
        return false;
      }
      ReserveLoop(a, b);
      ReserveRemoves(s, a, b, first, last);
      PoolOrders.ReservedQueue(s, a, b, first, last);
      if Separate(s) {
        ReserveCounts(s, a, b, first, last);
      }
      return true;
    }

    /** The loop of Reserve, which splits, trims and unlinks nodes while it walks over them. */
    method ReserveLoop(a: int, b: int)
      requires Valid() && a <= b
      modifies this, repr
      ensures Valid() && fresh(repr - old(repr))
      ensures segs == ReserveSegs(old(segs), a, b)
    {
      hide Total, Within, ReserveSegs, Cutting, LazyReusePool.Linked;
      HeadAt();
      var cur, prev: Segment? := head, null;
      ghost var s, done, todo := segs, [], segs;
      CuttingStarts(s, a, b, first, last);
      while cur != null
        invariant Valid() && At(prev, cur, |done|) && Cutting(s, segs, done, todo, a, b)
        invariant fresh(repr - old(repr))
        decreases Measure(todo)
      {
        prev, cur, done, todo := ReserveTurn(prev, cur, a, b, s, done, todo);
      }
      CuttingEnds(s, segs, done, todo, a, b);
    }

    method ReserveTurn(prev: Segment?, cur: Segment, a: int, b: int,
                       ghost s: seq<Range>, ghost done: seq<Range>, ghost todo: seq<Range>)
      returns (prev': Segment?, cur': Segment?, ghost done': seq<Range>, ghost todo': seq<Range>)
      requires Valid() && a <= b && At(prev, cur, |done|) && Cutting(s, segs, done, todo, a, b)
      modifies this`nodes, this`segs, this`head, this`repr, this`remain, cur, if prev == null then {} else {prev}
      ensures Valid() && fresh(repr - old(repr))
      ensures At(prev', cur', |done'|) && Cutting(s, segs, done', todo', a, b)
      ensures Measure(todo') < Measure(todo)
    {
      hide Total, Within, ReserveSegs, Splice, Overlap, Cut, LazyReusePool.Linked;
      ghost var r, rest := todo[0], todo[1..];
      ghost var c := Cut(r, a, b);
      assert todo == [r] + rest && segs[|done|] == r;
      NodeAt(|done|);
      SpliceParts(done, r, rest, c);
      CutLoop(done, r, rest, a, b, first, last);
      var kept := CutAt(prev, cur, |done|, a, b);
      prev' := if kept then cur else prev;
      cur' := cur.next;
      done', todo' := done + c[..Step(c)], c[Step(c)..] + rest;
    }

    /** Dump lists the segments from the head. */
    method Dump() returns (dumped: seq<Range>)
      requires Valid()
      ensures dumped == segs
    {
      dumped := [];
      var cur := head;
      ghost var i := 0;
      while cur != null
        invariant 0 <= i <= |nodes| && cur == if i < |nodes| then nodes[i] else null
        invariant dumped == segs[..i]
        decreases |nodes| - i
      {
        dumped := dumped + [Range(cur.first, cur.last)];
        cur := cur.next;
        i := i + 1;
      }
    }
  }

  // ---------------------------------------------------------------- list facts the walks need

  lemma NonEmptyHead(s: seq<Range>, lo: int, hi: int)
    requires Within(s, lo, hi) && s != []
    ensures s[0].first <= s[0].last
  {
  }

  lemma NotItself(nodes: seq<Segment>, i: nat)
    requires Distinct(nodes) && i < |nodes|
    ensures forall k :: 0 <= k < |nodes| && k != i ==> nodes[k] != nodes[i]
  {
  }

  lemma InsertDistinct(nodes: seq<Segment>, n: Segment, i: nat)
    requires Distinct(nodes) && (forall k :: 0 <= k < |nodes| ==> nodes[k] != n) && i < |nodes|
    ensures Distinct(Splice(nodes, i, [nodes[i], n]))
  {
    hide Splice;
    var r := Splice(nodes, i, [nodes[i], n]);
    assert r[i] == nodes[i] && r[i + 1] == n;
  }

  /** With new bounds in the node at `i` the nodes hold the segments with that one replaced. */
  lemma BoundsReplaced(ns: seq<Segment>, s: seq<Range>, i: nat, r: Range)
    requires i < |ns| == |s| && ns[i].first == r.first && ns[i].last == r.last
    requires forall k :: 0 <= k < |ns| && k != i ==> ns[k].first == s[k].first && ns[k].last == s[k].last
    ensures var t := Splice(s, i, [r]);
            forall k :: 0 <= k < |ns| ==> ns[k].first == t[k].first && ns[k].last == t[k].last
  {
    hide Splice;
    var t := Splice(s, i, [r]);
    forall k | 0 <= k < |ns| ensures ns[k].first == t[k].first && ns[k].last == t[k].last {
      assert k != i ==> t[k] == s[k];
    }
  }

  /** With a new node linked in behind the node at `i` every node points at the next one. */
  lemma InsertLinks(ns: seq<Segment>, i: nat, n: Segment)
    requires i < |ns| && ns[i].next == n && n.next == if i + 1 < |ns| then ns[i + 1] else null
    requires forall k {:trigger ns[k].next} :: 0 <= k < |ns| && k != i ==> ns[k].next == if k + 1 < |ns| then ns[k + 1] else null
    ensures var r := Splice(ns, i, [ns[i], n]);
            forall k {:trigger r[k].next} :: 0 <= k < |r| ==> r[k].next == if k + 1 < |r| then r[k + 1] else null
  {
    hide Splice;
    var r := Splice(ns, i, [ns[i], n]);
    assert r[i] == ns[i] && r[i + 1] == n;
    forall k | 0 <= k < |r| ensures r[k].next == if k + 1 < |r| then r[k + 1] else null {
      if k < i {
        assert r[k] == ns[k];
      } else if k > i + 1 {
        assert r[k] == ns[k - 1];
      }
    }
  }

  /** With the node before `i` pointing past it, every other node points at the next one. */
  lemma RemoveLinks(ns: seq<Segment>, i: nat)
    requires 0 < i < |ns| && ns[i - 1].next == if i + 1 < |ns| then ns[i + 1] else null
    requires forall k {:trigger ns[k].next} :: 0 <= k < |ns| && k != i - 1 && k != i ==>
               ns[k].next == if k + 1 < |ns| then ns[k + 1] else null
    ensures var r := Splice(ns, i, []);
            forall k {:trigger r[k].next} :: 0 <= k < |r| ==> r[k].next == if k + 1 < |r| then r[k + 1] else null
  {
    hide Splice;
    var r := Splice(ns, i, []);
    forall k | 0 <= k < |r| ensures r[k].next == if k + 1 < |r| then r[k + 1] else null {
      if k < i {
        assert r[k] == ns[k];
      } else {
        assert r[k] == ns[k + 1];
      }
    }
  }

  lemma RemoveDistinct(nodes: seq<Segment>, i: nat)
    requires Distinct(nodes) && i < |nodes|
    ensures Distinct(Splice(nodes, i, []))
  {
    hide Splice;
  }

  lemma SpliceSame<T>(s: seq<T>, i: nat)
    requires i < |s|
    ensures Splice(s, i, [s[i]]) == s
  {
  }

  lemma SpliceTwice<T>(s: seq<T>, i: nat, x: T, mid: seq<T>)
    requires i < |s|
    ensures Splice(Splice(s, i, [x]), i, mid) == Splice(s, i, mid)
  {
    var t := Splice(s, i, [x]);
    assert t[..i] == s[..i] && t[i + 1..] == s[i + 1..];
  }

  lemma FirstTaken(s: seq<Range>)
    requires s != [] && s[0].first <= s[0].last
    ensures var t := Splice(s, 0, [Range(s[0].first + 1, s[0].last)]);
            AllocateSegs(s) == if s[0].first + 1 > s[0].last then Splice(t, 0, []) else t
  {
    var r := Range(s[0].first + 1, s[0].last);
    var t := Splice(s, 0, [r]);
    assert s[..0] == [] && t[..0] == [];
    assert t == [r] + s[1..] && t[1..] == s[1..];
  }

  ghost function ExtendedAt(s: seq<Range>, i: nat): seq<Range>
    requires i < |s|
  {
    s[..i] + ExtendLast(s[i..])
  }

  lemma ExtendMerges(s: seq<Range>, i: nat)
    requires i + 1 < |s| && s[i].last + 2 == s[i + 1].first
    ensures var grown := Splice(s, i, [Range(s[i].first, s[i].last + 1)]);
            ExtendedAt(s, i) == Splice(Splice(grown, i, [Range(s[i].first, s[i + 1].last)]), i + 1, [])
  {
    hide Splice;
    var x, y := Range(s[i].first, s[i].last + 1), Range(s[i].first, s[i + 1].last);
    SuffixAt(s, i);
    SpliceTwice(s, i, x, [y]);
    MergeAt(s, i, y);
  }

  lemma ExtendGrows(s: seq<Range>, i: nat)
    requires i < |s| && (i + 1 == |s| || s[i].last + 2 != s[i + 1].first)
    ensures ExtendedAt(s, i) == Splice(s, i, [Range(s[i].first, s[i].last + 1)])
  {
    hide Splice;
    SuffixAt(s, i);
    FrontAt(s, i, Range(s[i].first, s[i].last + 1));
  }

  lemma SuffixAt(s: seq<Range>, i: nat)
    requires i < |s|
    ensures s[i..][0] == s[i]
    ensures i + 1 < |s| ==> s[i..][1] == s[i + 1] && s[i..][2..] == s[i + 2..]
  {
  }

  lemma MergeAt(s: seq<Range>, i: nat, y: Range)
    requires i + 1 < |s|
    ensures Splice(Splice(s, i, [y]), i + 1, []) == s[..i] + ([y] + s[i + 2..])
  {
    var t := Splice(s, i, [y]);
    assert t[..i + 1] == s[..i] + [y] && t[i + 2..] == s[i + 2..];
    Reassociate(s[..i], [y], s[i + 2..]);
    assert s[..i] + [y] + [] == s[..i] + [y];
  }

  lemma FrontAt(s: seq<Range>, i: nat, x: Range)
    requires i < |s|
    ensures Splice(s, i, [x]) == s[..i] + ([x] + s[i..][1..])
  {
    assert s[i..][1..] == s[i + 1..];
    Reassociate(s[..i], [x], s[i + 1..]);
  }

  lemma BeforeAt(s: seq<Range>, i: nat, x: Range)
    requires 0 < i < |s|
    ensures Splice(s, i - 1, [s[i - 1], x]) == s[..i] + ([x] + s[i..])
  {
    assert s[..i - 1] + [s[i - 1], x] == s[..i] + [x];
    Reassociate(s[..i], [x], s[i..]);
  }

  lemma AfterAt(s: seq<Range>, i: nat, x: Range)
    requires i + 1 == |s|
    ensures Splice(s, i, [s[i], x]) == s[..i] + ([s[i]] + [x]) == s[..i] + [s[i]] + [x]
    ensures s[i + 1..] == [] && s[i..][1..] == []
    ensures i == 0 ==> Splice(s, i, [s[i], x]) == [s[i]] + [x]
  {
  }

  lemma {:induction false} UseAt(s: seq<Range>, i: nat, v: int)
    requires i < |s| && s[i].Has(v) && forall k :: 0 <= k < i ==> !s[k].Has(v)
    ensures UseSegs(s, v) == Some(Splice(s, i, Cut(s[i], v, v)))
  {
    var r := Splice(s, i, Cut(s[i], v, v));
    if i == 0 {
      assert r == Cut(s[0], v, v) + s[1..];
    } else {
      UseAt(s[1..], i - 1, v);
      assert r == [s[0]] + Splice(s[1..], i - 1, Cut(s[i], v, v));
    }
  }

  lemma {:induction false} UseNowhere(s: seq<Range>, v: int)
    requires forall k :: 0 <= k < |s| ==> !s[k].Has(v)
    ensures UseSegs(s, v).None?
  {
    if s != [] {
      UseNowhere(s[1..], v);
    }
  }

  ghost function Spliced(front: seq<Range>, rest: Option<seq<Range>>): Option<seq<Range>> {
    match rest
    case None => None
    case Some(t) => Some(front + t)
  }

  /** FreeTail may skip the segments that lie wholly before `v - 1`. */
  lemma {:induction false} FreeTailAt(s: seq<Range>, i: nat, v: int)
    requires 0 < i <= |s| && forall k :: 1 <= k < i ==> PositionOf(s[k], v) == After
    ensures Prepend(s[0], FreeTail(s[1..], v)) ==
            Spliced(s[..i], FreeTail(s[i..], v))
    decreases i
  {
    if i == 1 {
      assert s[..1] == [s[0]];
    } else {
      FreeTailAt(s, i - 1, v);
      assert s[i - 1..][1..] == s[i..] && s[i - 1..][0] == s[i - 1];
      if FreeTail(s[i..], v).Some? {
        var t := FreeTail(s[i..], v).value;
        assert s[..i - 1] + ([s[i - 1]] + t) == s[..i] + t;
      }
    }
  }

  lemma SpliceParts(front: seq<Range>, r: Range, rest: seq<Range>, mid: seq<Range>)
    ensures Splice(front + ([r] + rest), |front|, mid) == front + mid + rest
  {
    var s := front + ([r] + rest);
    assert s[..|front|] == front && s[|front| + 1..] == rest;
  }

  /** How many values of `r` lie in `[a,b]`. */
  ghost function Overlap(r: Range, a: int, b: int): int {
    if r.last < a || b < r.first then 0
    else (if r.last < b then r.last else b) - (if r.first < a then a else r.first) + 1
  }

  lemma CutTotal(r: Range, a: int, b: int)
    requires r.first <= r.last && a <= b
    ensures Total(Cut(r, a, b)) == r.Size() - Overlap(r, a, b)
  {
    var c := Cut(r, a, b);
    if |c| == 2 {
      assert c[1..] == [c[1]];
      FreeSetOne(c[1]);
    } else if |c| == 1 {
      FreeSetOne(c[0]);
    }
  }

  /** The walk moves past what is left of a node, and stays where it is when the node is unlinked. */
  ghost function Step(c: seq<Range>): nat {
    if c == [] then 0 else 1
  }

  /** Of the segments `s`, `done` is what is left of those passed and `todo` those still to be cut. */
  ghost predicate Cutting(s: seq<Range>, segs: seq<Range>, done: seq<Range>, todo: seq<Range>, a: int, b: int) {
    && segs == done + todo && done + ReserveSegs(todo, a, b) == ReserveSegs(s, a, b)
    && 0 <= Total(todo)
  }

  ghost function Measure(todo: seq<Range>): nat {
    if Total(todo) < 0 then 0 else Total(todo)
  }

  lemma CuttingStarts(s: seq<Range>, a: int, b: int, lo: int, hi: int)
    requires Within(s, lo, hi)
    ensures Cutting(s, s, [], s, a, b)
  {
    TotalNonNegative(s, lo, hi);
    hide ReserveSegs;
    assert [] + s == s && [] + ReserveSegs(s, a, b) == ReserveSegs(s, a, b);
  }

  lemma CuttingEnds(s: seq<Range>, segs: seq<Range>, done: seq<Range>, todo: seq<Range>, a: int, b: int)
    requires Cutting(s, segs, done, todo, a, b) && |segs| <= |done|
    ensures segs == ReserveSegs(s, a, b)
  {
    assert todo == [] && done + [] == done;
  }

  /** One turn of the Reserve loop at the segment `r`: what is still to do keeps its meaning and shrinks. */
  lemma CutLoop(done: seq<Range>, r: Range, rest: seq<Range>, a: int, b: int, lo: int, hi: int)
    requires Within(done + ([r] + rest), lo, hi) && a <= b
    ensures var c := Cut(r, a, b);
            var done', todo' := done + c[..Step(c)], c[Step(c)..] + rest;
            && Within(done' + todo', lo, hi)
            && Total(done' + todo') == Total(done + ([r] + rest)) - Overlap(r, a, b)
            && done' + todo' == done + c + rest
            && done' + ReserveSegs(todo', a, b) == done + ReserveSegs([r] + rest, a, b)
            && 0 <= Total(todo') < Total([r] + rest)
    ensures r.first <= r.last
  {
    CutLoopTotal(done, r, rest, a, b, lo, hi);
    assert ([r] + rest)[1..] == rest;
    CutLoopTodo(done, r, rest, a, b);
  }

  lemma CutLoopTotal(done: seq<Range>, r: Range, rest: seq<Range>, a: int, b: int, lo: int, hi: int)
    requires Within(done + ([r] + rest), lo, hi) && a <= b
    ensures Within(done + Cut(r, a, b) + rest, lo, hi)
    ensures Total(done + Cut(r, a, b) + rest) == Total(done + ([r] + rest)) - Overlap(r, a, b)
    ensures 0 <= Total(rest) && r.first <= r.last
  {
    hide Total, Within, Cut, FreeSet, Separate;
    var c := Cut(r, a, b);
    WithinParts(done, r, rest, lo, hi);
    CutTotal(r, a, b);
    CutWithin(r, a, b, lo, hi);
    WithinConcat(done, c, rest, lo, hi);
    TotalConcat(done, [r] + rest);
    Consed(r, rest);
    TotalConcat(done + c, rest);
    TotalConcat(done, c);
    TotalNonNegative(rest, lo, hi);
  }

  lemma WithinParts(done: seq<Range>, r: Range, rest: seq<Range>, lo: int, hi: int)
    requires Within(done + ([r] + rest), lo, hi)
    ensures Within(done, lo, hi) && Within(rest, lo, hi) && lo <= r.first <= r.last <= hi
  {
    var s := done + ([r] + rest);
    assert s[|done|] == r;
    assert forall i :: 0 <= i < |done| ==> done[i] == s[i];
    assert forall i :: 0 <= i < |rest| ==> rest[i] == s[|done| + 1 + i];
  }

  lemma WithinConcat(x: seq<Range>, y: seq<Range>, z: seq<Range>, lo: int, hi: int)
    requires Within(x, lo, hi) && Within(y, lo, hi) && Within(z, lo, hi)
    ensures Within(x + y + z, lo, hi)
  {
  }

  lemma CutWithin(r: Range, a: int, b: int, lo: int, hi: int)
    requires lo <= r.first <= r.last <= hi && a <= b
    ensures Within(Cut(r, a, b), lo, hi)
  {
  }

  lemma CutLoopTodo(done: seq<Range>, r: Range, rest: seq<Range>, a: int, b: int)
    requires r.first <= r.last && a <= b
    ensures var c := Cut(r, a, b);
            var done', todo' := done + c[..Step(c)], c[Step(c)..] + rest;
            && done' + todo' == done + c + rest
            && done' + ReserveSegs(todo', a, b) == done + ReserveSegs([r] + rest, a, b)
            && Total(rest) <= Total(todo') < r.Size() + Total(rest)
  {
    var c := Cut(r, a, b);
    hide Total, ReserveSegs, FreeSet, Separate;
    ReserveCons(r, rest, a, b);
    Consed(r, rest);
    if |c| == 2 {
      CutTwo(c[0], c[1], rest, a, b);
      assert c == [c[0], c[1]] && c[1..] == [c[1]] && c[..1] == [c[0]];
      assert done + [c[0]] + ([c[1]] + ReserveSegs(rest, a, b)) == done + ([c[0], c[1]] + ReserveSegs(rest, a, b));
      assert done + [c[0]] + ([c[1]] + rest) == done + [c[0], c[1]] + rest;
    } else {
      assert c[Step(c)..] + rest == rest && c[..Step(c)] == c;
      assert done + c + ReserveSegs(rest, a, b) == done + (c + ReserveSegs(rest, a, b));
    }
  }

  lemma ReserveCons(r: Range, rest: seq<Range>, a: int, b: int)
    ensures ReserveSegs([r] + rest, a, b) == Cut(r, a, b) + ReserveSegs(rest, a, b)
  {
    assert ([r] + rest)[1..] == rest;
  }

  lemma CutTwo(x: Range, y: Range, rest: seq<Range>, a: int, b: int)
    requires y.first == b + 1 <= y.last
    ensures ReserveSegs([y] + rest, a, b) == [y] + ReserveSegs(rest, a, b)
    ensures Total([y] + rest) == y.Size() + Total(rest)
  {
    assert ([y] + rest)[1..] == rest;
  }

  lemma {:induction false} TotalNonNegative(segs: seq<Range>, lo: int, hi: int)
    requires Within(segs, lo, hi)
    ensures 0 <= Total(segs)
  {
    if segs != [] {
      TotalNonNegative(segs[1..], lo, hi);
    }
  }
}
