/** Segment lists as values: the list operations of LazyReusePool written on `seq<Range>`, and what
    each of them means for the set of free integers that the list stands for. */
module Segments {
  import opened Options

  /** The closed interval held by one list node. */
  datatype Range = Range(first: int, last: int) {
    predicate Has(v: int) { first <= v <= last }

    function Size(): int { last - first + 1 }
  }

  datatype Position = Before | AdjacentToTheFront | WithinThisSegment | AdjacentToTheBack | After

  function PositionOf(r: Range, v: int): Position {
    if v < r.first - 1 then Before
    else if v == r.first - 1 then AdjacentToTheFront
    else if r.Has(v) then WithinThisSegment
    else if v == r.last + 1 then AdjacentToTheBack
    else After
  }

  // ---------------------------------------------------------------- meaning

  predicate Between(lo: int, v: int, hi: int) { lo <= v <= hi }

  ghost function Interval(lo: int, hi: int): set<int> {
    set v | lo <= v <= hi && Between(lo, v, hi)
  }

  /** The integers that some segment of the list holds. */
  ghost function FreeSet(segs: seq<Range>): set<int> {
    if segs == [] then {} else Interval(segs[0].first, segs[0].last) + FreeSet(segs[1..])
  }

  /** The sum of the segment sizes, which is what the `remain` counter follows. */
  function Total(segs: seq<Range>): int {
    if segs == [] then 0 else segs[0].Size() + Total(segs[1..])
  }

  /** Every segment is non-empty and inside `[lo,hi]`. Every operation keeps this, for any client. */
  predicate Within(segs: seq<Range>, lo: int, hi: int) {
    forall i :: 0 <= i < |segs| ==> lo <= segs[i].first <= segs[i].last <= hi
  }

  /** No integer sits in two segments. Kept for clients that free only values that are not free. */
  ghost predicate Separate(segs: seq<Range>) {
    segs == [] ||
    (Interval(segs[0].first, segs[0].last) !! FreeSet(segs[1..]) && Separate(segs[1..]))
  }

  // ---------------------------------------------------------------- operations

  /** Allocate takes the first integer of the head. */
  function AllocateSegs(segs: seq<Range>): seq<Range>
    requires segs != []
  {
    if segs[0].first + 1 > segs[0].last then segs[1..]
    else [Range(segs[0].first + 1, segs[0].last)] + segs[1..]
  }

  /** What `[a,b]` leaves of one segment. */
  function Cut(r: Range, a: int, b: int): seq<Range> {
    if r.last < a || b < r.first then [r]
    else (if r.first < a then [Range(r.first, a - 1)] else []) + (if b < r.last then [Range(b + 1, r.last)] else [])
  }

  /** Use removes `v` from the first segment that holds it; None when no segment does. */
  function UseSegs(segs: seq<Range>, v: int): Option<seq<Range>> {
    if segs == [] then None
    else if segs[0].Has(v) then Some(Cut(segs[0], v, v) + segs[1..])
    else Prepend(segs[0], UseSegs(segs[1..], v))
  }

  /** Reserve cuts `[a,b]` out of every segment. */
  function ReserveSegs(segs: seq<Range>, a: int, b: int): seq<Range> {
    if segs == [] then []
    else Cut(segs[0], a, b) + ReserveSegs(segs[1..], a, b)
  }

  /** Grow the first segment by one at its back, absorbing its successor when they now touch. */
  function ExtendLast(segs: seq<Range>): seq<Range>
    requires segs != []
  {
    if |segs| > 1 && segs[0].last + 2 == segs[1].first
    then [Range(segs[0].first, segs[1].last)] + segs[2..]
    else [Range(segs[0].first, segs[0].last + 1)] + segs[1..]
  }

  /** The walk of Free over the segments behind the head. */
  function FreeTail(segs: seq<Range>, v: int): Option<seq<Range>> {
    if segs == [] then Some([Range(v, v)])
    else match PositionOf(segs[0], v)
      case Before => Some([Range(v, v)] + segs)
      case AdjacentToTheFront => Some([Range(v, segs[0].last)] + segs[1..])
      case WithinThisSegment => None
      case AdjacentToTheBack => Some(ExtendLast(segs))
      case After => Prepend(segs[0], FreeTail(segs[1..], v))
  }

  function Prepend(r: Range, rest: Option<seq<Range>>): Option<seq<Range>> {
    match rest
    case None => None
    case Some(s) => Some([r] + s)
  }

  /** Free for an in-range value; None is a rejected, duplicate free. */
  function FreeSegs(segs: seq<Range>, v: int): Option<seq<Range>> {
    if segs == [] then Some([Range(v, v)])
    else match PositionOf(segs[0], v)
      case WithinThisSegment => None
      case AdjacentToTheBack => Some(ExtendLast(segs))
      case _ => Prepend(segs[0], FreeTail(segs[1..], v))
  }

  // ---------------------------------------------------------------- size of the free set

  lemma IntervalSnoc(a: int, b: int)
    requires a <= b + 1
    ensures Interval(a, b + 1) == Interval(a, b) + {b + 1} && b + 1 !in Interval(a, b)
  {
  }

  lemma {:induction false} IntervalSize(lo: int, hi: int)
    requires lo <= hi + 1
    ensures |Interval(lo, hi)| == hi - lo + 1
    decreases hi - lo
  {
    if lo <= hi {
      IntervalSize(lo, hi - 1);
      IntervalSnoc(lo, hi - 1);
    } else {
      assert Interval(lo, hi) == {};
    }
  }

  /** `Total` counts the free set exactly when no integer is in two segments. */
  lemma {:induction false} TotalIsSize(segs: seq<Range>, lo: int, hi: int)
    requires Within(segs, lo, hi)
    ensures |FreeSet(segs)| <= Total(segs)
    ensures Separate(segs) <==> |FreeSet(segs)| == Total(segs)
  {
    if segs != [] {
      var rest := segs[1..];
      var mine := Interval(segs[0].first, segs[0].last);
      IntervalSize(segs[0].first, segs[0].last);
      TotalIsSize(rest, lo, hi);
      assert |mine + FreeSet(rest)| == |mine| + |FreeSet(rest)| - |mine * FreeSet(rest)|;
      if mine !! FreeSet(rest) {
        assert mine * FreeSet(rest) == {};
      } else {
        var x :| x in mine && x in FreeSet(rest);
        assert x in mine * FreeSet(rest);
      }
    }
  }

  lemma {:induction false} FreeSetWithin(segs: seq<Range>, lo: int, hi: int)
    requires Within(segs, lo, hi)
    ensures FreeSet(segs) <= Interval(lo, hi)
  {
    if segs != [] {
      FreeSetWithin(segs[1..], lo, hi);
    }
  }

  lemma {:induction false} TotalConcat(s: seq<Range>, t: seq<Range>)
    ensures Total(s + t) == Total(s) + Total(t)
  {
    if s == [] {
      assert s + t == t;
    } else {
      assert (s + t)[1..] == s[1..] + t;
      TotalConcat(s[1..], t);
    }
  }

  lemma {:induction false} FreeSetConcat(s: seq<Range>, t: seq<Range>)
    ensures FreeSet(s + t) == FreeSet(s) + FreeSet(t)
    ensures Separate(s + t) <==> Separate(s) && Separate(t) && FreeSet(s) !! FreeSet(t)
  {
    if s == [] {
      assert s + t == t;
    } else {
      assert (s + t)[1..] == s[1..] + t;
      FreeSetConcat(s[1..], t);
    }
  }

  // ---------------------------------------------------------------- set refinement

  lemma {:induction false} AllocateRemovesFirst(segs: seq<Range>, lo: int, hi: int)
    requires segs != [] && Within(segs, lo, hi)
    ensures Within(AllocateSegs(segs), lo, hi)
    ensures Total(AllocateSegs(segs)) == Total(segs) - 1
    ensures segs[0].first in FreeSet(segs)
    ensures Separate(segs) ==>
              Separate(AllocateSegs(segs)) && FreeSet(AllocateSegs(segs)) == FreeSet(segs) - {segs[0].first}
  {
    var r := segs[0];
    if r.first < r.last {
      var t := AllocateSegs(segs);
      assert t[1..] == segs[1..];
      assert Interval(r.first, r.last) == {r.first} + Interval(r.first + 1, r.last);
    } else {
      assert Interval(r.first, r.last) == {r.first};
    }
  }

  lemma FreeSetOne(r: Range)
    ensures FreeSet([r]) == Interval(r.first, r.last)
    ensures Separate([r]) && Total([r]) == r.Size()
  {
    assert [r][1..] == [];
  }

  lemma CutMeaning(r: Range, a: int, b: int)
    requires r.first <= r.last && a <= b
    ensures FreeSet(Cut(r, a, b)) == Interval(r.first, r.last) - Interval(a, b)
    ensures Separate(Cut(r, a, b))
    ensures Within(Cut(r, a, b), r.first, r.last)
  {
    FreeSetOne(r);
    FreeSetOne(Range(r.first, a - 1));
    FreeSetOne(Range(b + 1, r.last));
    FreeSetConcat([Range(r.first, a - 1)], [Range(b + 1, r.last)]);
  }

  lemma CutCounts(r: Range, v: int, rest: seq<Range>)
    requires r.Has(v)
    ensures Total(Cut(r, v, v) + rest) == r.Size() - 1 + Total(rest)
  {
    var x, y := Range(r.first, v - 1), Range(v + 1, r.last);
    FreeSetOne(x);
    FreeSetOne(y);
    TotalConcat([x], [y]);
    TotalConcat(Cut(r, v, v), rest);
  }

  lemma NothingFree()
    ensures FreeSet([]) == {} && Total([]) == 0
  {
  }

  /** What a list says about its head and the rest. */
  lemma Consed(r: Range, rest: seq<Range>)
    ensures FreeSet([r] + rest) == Interval(r.first, r.last) + FreeSet(rest)
    ensures Total([r] + rest) == r.Size() + Total(rest)
  {
    assert ([r] + rest)[1..] == rest;
  }

  /** Use succeeds iff `v` is free, and counts one down, for any list. */
  lemma {:induction false} UseCounts(segs: seq<Range>, v: int, lo: int, hi: int)
    requires Within(segs, lo, hi)
    ensures UseSegs(segs, v).Some? <==> v in FreeSet(segs)
    ensures UseSegs(segs, v).Some? ==>
              Within(UseSegs(segs, v).value, lo, hi) && Total(UseSegs(segs, v).value) == Total(segs) - 1
  {
    hide FreeSet, Total;
    if segs == [] {
      NothingFree();
    } else {
      var r, rest := segs[0], segs[1..];
      assert segs == [r] + rest;
      Consed(r, rest);
      assert v in Interval(r.first, r.last) <==> r.Has(v);
      if r.Has(v) {
        CutCounts(r, v, rest);
      } else {
        UseCounts(rest, v, lo, hi);
        if UseSegs(rest, v).Some? {
          Consed(r, UseSegs(rest, v).value);
        }
      }
    }
  }

  lemma ConsedSeparate(r: Range, rest: seq<Range>)
    ensures Separate([r] + rest) <==> Interval(r.first, r.last) !! FreeSet(rest) && Separate(rest)
  {
    assert ([r] + rest)[1..] == rest;
  }

  /** A successful Use removes exactly `v`. */
  lemma {:induction false} UseRemoves(segs: seq<Range>, v: int, lo: int, hi: int)
    requires Within(segs, lo, hi) && Separate(segs) && UseSegs(segs, v).Some?
    ensures Separate(UseSegs(segs, v).value)
    ensures FreeSet(UseSegs(segs, v).value) == FreeSet(segs) - {v}
  {
    hide FreeSet, Separate, Cut;
    var r, rest := segs[0], segs[1..];
    assert segs == [r] + rest;
    Consed(r, rest);
    ConsedSeparate(r, rest);
    if r.Has(v) {
      CutMeaning(r, v, v);
      FreeSetConcat(Cut(r, v, v), rest);
      assert Interval(v, v) == {v};
    } else {
      UseRemoves(rest, v, lo, hi);
      Consed(r, UseSegs(rest, v).value);
      ConsedSeparate(r, UseSegs(rest, v).value);
    }
  }

  /** Allocate and Use make no further value free, for any list. */
  lemma AllocateShrinks(segs: seq<Range>)
    requires segs != []
    ensures FreeSet(AllocateSegs(segs)) <= FreeSet(segs)
  {
    hide FreeSet, Separate, Total;
    var r, rest := segs[0], segs[1..];
    assert segs == [r] + rest;
    Consed(r, rest);
    Consed(Range(r.first + 1, r.last), rest);
  }

  lemma {:induction false} UseShrinks(segs: seq<Range>, v: int, lo: int, hi: int)
    requires Within(segs, lo, hi) && UseSegs(segs, v).Some?
    ensures FreeSet(UseSegs(segs, v).value) <= FreeSet(segs)
  {
    hide FreeSet, Separate, Cut;
    var r, rest := segs[0], segs[1..];
    assert segs == [r] + rest;
    Consed(r, rest);
    if r.Has(v) {
      CutMeaning(r, v, v);
      FreeSetConcat(Cut(r, v, v), rest);
    } else {
      UseShrinks(rest, v, lo, hi);
      Consed(r, UseSegs(rest, v).value);
    }
  }

  /** Reserve leaves exactly the free integers outside `[a,b]`, whatever the order of the segments. */
  lemma {:induction false} ReserveRemoves(segs: seq<Range>, a: int, b: int, lo: int, hi: int)
    requires a <= b && Within(segs, lo, hi)
    ensures Within(ReserveSegs(segs, a, b), lo, hi)
    ensures FreeSet(ReserveSegs(segs, a, b)) == FreeSet(segs) - Interval(a, b)
    ensures Separate(segs) ==> Separate(ReserveSegs(segs, a, b))
  {
    if segs != [] {
      var r, rest := segs[0], segs[1..];
      ReserveRemoves(rest, a, b, lo, hi);
      CutMeaning(r, a, b);
      FreeSetConcat(Cut(r, a, b), ReserveSegs(rest, a, b));
    }
  }

  /** Reserve lowers the count by exactly the number of free integers in `[a,b]`. */
  lemma ReserveCounts(segs: seq<Range>, a: int, b: int, lo: int, hi: int)
    requires a <= b && Within(segs, lo, hi) && Separate(segs)
    ensures Total(ReserveSegs(segs, a, b)) == Total(segs) - |FreeSet(segs) * Interval(a, b)|
  {
    ReserveRemoves(segs, a, b, lo, hi);
    TotalIsSize(segs, lo, hi);
    TotalIsSize(ReserveSegs(segs, a, b), lo, hi);
    var all := FreeSet(segs);
    assert all == (all * Interval(a, b)) + (all - Interval(a, b));
  }

  lemma ExtendLastCounts(segs: seq<Range>, lo: int, hi: int)
    requires segs != [] && Within(segs, lo, hi) && segs[0].last < hi
    ensures Within(ExtendLast(segs), lo, hi)
    ensures Total(ExtendLast(segs)) == Total(segs) + 1
  {
    if |segs| > 1 {
      assert segs[1..][1..] == segs[2..];
    }
  }

  lemma ExtendLastAdds(segs: seq<Range>, lo: int, hi: int)
    requires segs != [] && Within(segs, lo, hi) && segs[0].last < hi
    ensures Within(ExtendLast(segs), lo, hi)
    ensures Total(ExtendLast(segs)) == Total(segs) + 1
    ensures FreeSet(ExtendLast(segs)) == FreeSet(segs) + {segs[0].last + 1}
  {
    ExtendLastCounts(segs, lo, hi);
    assert segs[0].first <= segs[0].last;
    hide *;
    if |segs| > 1 && segs[0].last + 2 == segs[1].first {
      ExtendMergeAdds(segs, lo, hi);
    } else {
      ExtendAtHead(segs);
    }
  }

  lemma ExtendMergeAdds(segs: seq<Range>, lo: int, hi: int)
    requires |segs| > 1 && segs[0].last + 2 == segs[1].first && Within(segs, lo, hi)
    ensures FreeSet(ExtendLast(segs)) == FreeSet(segs) + {segs[0].last + 1}
  {
    hide FreeSet, Interval;
    var r, n, rest := segs[0], segs[1], segs[2..];
    assert segs == [r] + ([n] + rest);
    assert ExtendLast(segs) == [Range(r.first, n.last)] + rest;
    Consed(r, [n] + rest);
    Consed(n, rest);
    Consed(Range(r.first, n.last), rest);
    JoinIntervals(r.first, r.last, n.last);
    Shuffle(Interval(r.first, r.last), r.last + 1, Interval(n.first, n.last), FreeSet(rest));
  }

  lemma ExtendGrowAdds(r: Range, rest: seq<Range>)
    requires r.first <= r.last && (rest == [] || r.last + 2 != rest[0].first)
    ensures FreeSet(ExtendLast([r] + rest)) == FreeSet([r] + rest) + {r.last + 1}
  {
    hide *;
    ExtendIsGrow(r, rest);
    GrowAdds(r.first, r.last, rest);
  }

  lemma ExtendAtHead(segs: seq<Range>)
    requires segs != [] && segs[0].first <= segs[0].last && !(|segs| > 1 && segs[0].last + 2 == segs[1].first)
    ensures FreeSet(ExtendLast(segs)) == FreeSet(segs) + {segs[0].last + 1}
  {
    hide *;
    var r, rest := segs[0], segs[1..];
    assert [r] + rest == segs;
    ExtendGrowAdds(r, rest);
  }

  lemma ExtendIsGrow(r: Range, rest: seq<Range>)
    requires rest == [] || r.last + 2 != rest[0].first
    ensures ExtendLast([r] + rest) == [Range(r.first, r.last + 1)] + rest
  {
    var segs := [r] + rest;
    assert segs[1..] == rest && (rest != [] ==> segs[1] == rest[0]);
  }

  lemma GrowAdds(a: int, b: int, rest: seq<Range>)
    requires a <= b
    ensures FreeSet([Range(a, b + 1)] + rest) == FreeSet([Range(a, b)] + rest) + {b + 1}
  {
    hide FreeSet, Interval, Separate, Total;
    Consed(Range(a, b), rest);
    Consed(Range(a, b + 1), rest);
    IntervalSnoc(a, b);
  }

  lemma Shuffle(a: set<int>, x: int, b: set<int>, f: set<int>)
    ensures a + {x} + b + f == a + (b + f) + {x}
  {
  }

  lemma JoinIntervals(a: int, b: int, c: int)
    requires a <= b && b + 2 <= c
    ensures Interval(a, c) == Interval(a, b) + {b + 1} + Interval(b + 2, c)
  {
  }

  lemma IntervalGrows(v: int, last: int)
    requires v <= last
    ensures Interval(v, v) == {v}
    ensures Interval(v, last) == Interval(v + 1, last) + {v}
  {
  }

  lemma {:induction false} FreeTailAdds(segs: seq<Range>, v: int, lo: int, hi: int)
    requires Within(segs, lo, hi) && lo <= v <= hi
    ensures FreeTail(segs, v).None? ==> v in FreeSet(segs)
    ensures FreeTail(segs, v).Some? ==>
              var t := FreeTail(segs, v).value;
              && Within(t, lo, hi) && Total(t) == Total(segs) + 1
              && FreeSet(t) == FreeSet(segs) + {v}
  {
    hide FreeSet, Total, ExtendLast, Separate;
    IntervalGrows(v, v);
    FreeSetOne(Range(v, v));
    if segs == [] {
      NothingFree();
    } else {
      var r, rest := segs[0], segs[1..];
      assert segs == [r] + rest;
      Consed(r, rest);
      match PositionOf(r, v)
      case Before =>
        Consed(Range(v, v), segs);
      case AdjacentToTheFront =>
        Consed(Range(v, r.last), rest);
        IntervalGrows(v, r.last);
      case WithinThisSegment =>
      case AdjacentToTheBack =>
        ExtendLastAdds(segs, lo, hi);
      case After =>
        FreeTailAdds(rest, v, lo, hi);
        if FreeTail(rest, v).Some? {
          Consed(r, FreeTail(rest, v).value);
        }
    }
  }

  /** Free of a value that is not free succeeds and adds exactly that value; a rejected value was free. */
  lemma FreeAdds(segs: seq<Range>, v: int, lo: int, hi: int)
    requires Within(segs, lo, hi) && lo <= v <= hi
    ensures FreeSegs(segs, v).None? ==> v in FreeSet(segs)
    ensures FreeSegs(segs, v).Some? ==>
              var t := FreeSegs(segs, v).value;
              && Within(t, lo, hi) && Total(t) == Total(segs) + 1
              && FreeSet(t) == FreeSet(segs) + {v}
  {
    hide FreeSet, Total, FreeTail, ExtendLast, Separate;
    IntervalGrows(v, v);
    FreeSetOne(Range(v, v));
    if segs == [] {
      NothingFree();
    } else {
      var r, rest := segs[0], segs[1..];
      assert segs == [r] + rest;
      Consed(r, rest);
      match PositionOf(r, v)
      case WithinThisSegment =>
      case AdjacentToTheBack =>
        ExtendLastAdds(segs, lo, hi);
      case _ =>
        FreeTailAdds(rest, v, lo, hi);
        if FreeTail(rest, v).Some? {
          Consed(r, FreeTail(rest, v).value);
        }
    }
  }

  /** An accepted Free keeps the segments separate iff the value was not free before. */
  lemma FreeKeepsSeparate(segs: seq<Range>, v: int, lo: int, hi: int)
    requires Within(segs, lo, hi) && lo <= v <= hi && FreeSegs(segs, v).Some?
    ensures Separate(segs) ==> (Separate(FreeSegs(segs, v).value) <==> v !in FreeSet(segs))
  {
    hide *;
    FreeAdds(segs, v, lo, hi);
    TotalIsSize(segs, lo, hi);
    TotalIsSize(FreeSegs(segs, v).value, lo, hi);
    if v in FreeSet(segs) {
      assert FreeSet(segs) + {v} == FreeSet(segs);
    }
  }

  // ---------------------------------------------------------------- duplicate free

  /** Where the walk behind the head stops on a free `v`: it rejects iff no segment before the one
      holding `v` ends at `v - 1` or later. */
  predicate Behind(segs: seq<Range>, k: nat, v: int)
    requires k <= |segs|
  {
    forall j :: 0 <= j < k ==> segs[j].last + 1 < v
  }

  lemma {:induction false} FreeTailRejects(segs: seq<Range>, k: nat, v: int, lo: int, hi: int)
    requires Within(segs, lo, hi)
    requires k < |segs| && segs[k].Has(v)
    requires forall j :: 0 <= j < k ==> !segs[j].Has(v)
    ensures FreeTail(segs, v).None? <==> Behind(segs, k, v)
  {
    if k > 0 {
      var rest := segs[1..];
      assert forall j :: 0 <= j < |rest| ==> rest[j] == segs[j + 1];
      FreeTailRejects(rest, k - 1, v, lo, hi);
      if segs[0].last + 1 < v {
        assert PositionOf(segs[0], v) == After;
        if Behind(rest, k - 1, v) {
          forall j | 0 <= j < k ensures segs[j].last + 1 < v {
            assert j > 0 ==> rest[j - 1].last + 1 < v;
          }
        } else {
          var j :| 0 <= j < k - 1 && !(rest[j].last + 1 < v);
          assert !(segs[j + 1].last + 1 < v);
        }
      }
    }
  }

  /** The exact condition under which a second Free of `v`, held first by segment `k`, is rejected. */
  lemma {:induction false} DuplicateFreeRejected(segs: seq<Range>, k: nat, v: int, lo: int, hi: int)
    requires Within(segs, lo, hi)
    requires k < |segs| && segs[k].Has(v)
    requires forall j :: 0 <= j < k ==> !segs[j].Has(v)
    ensures FreeSegs(segs, v).None? <==> k == 0 || (v != segs[0].last + 1 && Behind(segs[1..], k - 1, v))
  {
    if k > 0 {
      var rest := segs[1..];
      assert forall j :: 0 <= j < |rest| ==> rest[j] == segs[j + 1];
      FreeTailRejects(rest, k - 1, v, lo, hi);
    }
  }

  /** Strictly ascending segments with a gap of at least one between neighbours. */
  predicate Ascending(segs: seq<Range>) {
    |segs| <= 1 || (segs[0].last + 1 < segs[1].first && Ascending(segs[1..]))
  }

  predicate TailAscending(segs: seq<Range>) {
    segs == [] || Ascending(segs[1..])
  }

  lemma {:induction false} AscendingPairs(segs: seq<Range>, lo: int, hi: int)
    requires Within(segs, lo, hi) && Ascending(segs)
    ensures forall i, j :: 0 <= i < j < |segs| ==> segs[i].last + 1 < segs[j].first
  {
    if |segs| > 1 {
      var rest := segs[1..];
      AscendingPairs(rest, lo, hi);
      forall i, j | 0 <= i < j < |segs| ensures segs[i].last + 1 < segs[j].first {
        assert segs[j] == rest[j - 1];
        if i > 0 { assert segs[i] == rest[i - 1]; }
      }
    }
  }

  lemma {:induction false} FreeTailKeepsAscending(segs: seq<Range>, v: int, lo: int, hi: int)
    requires Within(segs, lo, hi) && Ascending(segs) && FreeTail(segs, v).Some?
    ensures Ascending(FreeTail(segs, v).value)
    ensures var t := FreeTail(segs, v).value;
            t != [] && (t[0].first == v || (segs != [] && t[0].first == segs[0].first))
  {
    if segs != [] {
      var r, rest, t := segs[0], segs[1..], FreeTail(segs, v).value;
      match PositionOf(r, v)
      case Before =>
        assert t[1..] == segs;
      case AdjacentToTheFront =>
        assert t[1..] == rest;
      case AdjacentToTheBack =>
        if |segs| > 1 && r.last + 2 == segs[1].first {
          assert t[1..] == rest[1..];
        } else {
          assert t[1..] == rest;
        }
      case After =>
        FreeTailKeepsAscending(rest, v, lo, hi);
        assert t[1..] == FreeTail(rest, v).value;
    }
  }

  /** Free keeps the tail ascending, even when it wrongly accepts a duplicate. */
  lemma FreeKeepsTailAscending(segs: seq<Range>, v: int, lo: int, hi: int)
    requires Within(segs, lo, hi) && TailAscending(segs) && FreeSegs(segs, v).Some?
    ensures TailAscending(FreeSegs(segs, v).value)
  {
    if segs != [] {
      var rest, t := segs[1..], FreeSegs(segs, v).value;
      if PositionOf(segs[0], v).AdjacentToTheBack? {
        assert t[1..] == rest || (|rest| > 0 && t[1..] == rest[1..]);
      } else {
        FreeTailKeepsAscending(rest, v, lo, hi);
        assert t[1..] == FreeTail(rest, v).value;
      }
    }
  }

  lemma AllocateKeepsTailAscending(segs: seq<Range>)
    requires segs != [] && TailAscending(segs)
    ensures TailAscending(AllocateSegs(segs))
  {
    var t := AllocateSegs(segs);
    if segs[0].first + 1 > segs[0].last {
      assert t == segs[1..];
    } else {
      assert t[1..] == segs[1..];
    }
  }

  lemma {:induction false} AscendingTailRejects(segs: seq<Range>, v: int, lo: int, hi: int)
    requires Within(segs, lo, hi) && Ascending(segs) && v in FreeSet(segs)
    ensures segs[0].first <= v && FreeTail(segs, v).None?
  {
    if !segs[0].Has(v) {
      AscendingTailRejects(segs[1..], v, lo, hi);
    }
  }

  /** With an ascending tail, a second Free of `v` is rejected iff `v` is not `head.last + 1`. */
  lemma AscendingRejectsDuplicates(segs: seq<Range>, v: int, lo: int, hi: int)
    requires Within(segs, lo, hi) && TailAscending(segs) && v in FreeSet(segs)
    ensures FreeSegs(segs, v).None? <==> v != segs[0].last + 1
  {
    if !segs[0].Has(v) {
      AscendingTailRejects(segs[1..], v, lo, hi);
    }
  }
}
