/** The tracking-area topology: cell adjacency, its quotient by tracking area, and the breadth-first hop
    count between tracking areas. */
module Topologies {
  import opened Options
  import opened Basics

  /** A dictionary of sets whose missing keys read as the empty set. */
  type Graph = map<int, set<int>>

  function Adj(g: Graph, v: int): set<int> {
    if v in g then g[v] else {}
  }

  function AddEdge(g: Graph, a: int, b: int): Graph {
    g[a := Adj(g, a) + {b}]
  }

  // ---------------------------------------------------------------- walks

  /** `p` leads from `a` to `b` along edges of `g`; it has `|p| - 1` hops. */
  predicate IsWalk(g: Graph, p: seq<int>, a: int, b: int) {
    && |p| > 0 && p[0] == a && p[|p| - 1] == b
    && forall i :: 0 <= i < |p| - 1 ==> p[i + 1] in Adj(g, p[i])
  }

  /** `hops` is the length of a shortest walk from `a` to `b`, or None when there is none. */
  ghost predicate ShortestHops(g: Graph, a: int, b: int, hops: Option<nat>) {
    match hops
    case None => forall p :: !IsWalk(g, p, a, b)
    case Some(h) =>
      && (exists p :: IsWalk(g, p, a, b) && |p| == h + 1)
      && (forall p :: IsWalk(g, p, a, b) ==> h + 1 <= |p|)
  }

  lemma WalkExtends(g: Graph, p: seq<int>, a: int, b: int, c: int)
    requires IsWalk(g, p, a, b) && c in Adj(g, b)
    ensures IsWalk(g, p + [c], a, c)
  {
    var q := p + [c];
    forall i | 0 <= i < |q| - 1 ensures q[i + 1] in Adj(g, q[i]) {
      if i < |p| - 1 {
        assert q[i + 1] == p[i + 1] && q[i] == p[i];
      }
    }
  }

  // ---------------------------------------------------------------- breadth-first search

  /** Every neighbour of `u` has been seen, at most one hop further away. */
  ghost predicate Settled(g: Graph, walks: map<int, seq<int>>, u: int) {
    u in walks && forall n :: n in Adj(g, u) ==> n in walks && |walks[n]| <= |walks[u]| + 1
  }

  /** The state of the search: for each vertex seen a walk to it, and the vertices already expanded. */
  ghost predicate Searched(g: Graph, src: int, walks: map<int, seq<int>>, expanded: set<int>) {
    && src in walks && walks[src] == [src]
    && (forall v :: v in walks ==> IsWalk(g, walks[v], src, v))
    && (forall u :: u in expanded ==> Settled(g, walks, u))
  }

  /** A walk that leaves the vertices seen passes a vertex that is seen but not expanded, so it is longer
      than the shortest of the walks to those. */
  lemma {:induction false} WalkCrossesFrontier(g: Graph, src: int, dst: int, walks: map<int, seq<int>>,
                                               expanded: set<int>, h: nat, p: seq<int>, i: nat)
    requires Searched(g, src, walks, expanded) && dst !in walks && IsWalk(g, p, src, dst)
    requires forall u :: u in walks && u !in expanded ==> h + 1 <= |walks[u]|
    requires i < |p| && p[i] in walks && |walks[p[i]]| <= i + 1
    ensures h + 2 <= |p|
    decreases |p| - i
  {
    var u := p[i];
    assert u in walks && i != |p| - 1;
    if u in expanded {
      assert Settled(g, walks, u);
      var n := p[i + 1];
      assert n in Adj(g, u);
      WalkCrossesFrontier(g, src, dst, walks, expanded, h, p, i + 1);
    }
  }

  /** The queue of (vertex, hops) pairs: distinct unexpanded vertices in order of their distance. */
  ghost predicate QueueOk(q: seq<(int, nat)>, walks: map<int, seq<int>>, open: set<int>, h: nat) {
    && (forall i :: 0 <= i < |q| ==> q[i].0 in open && q[i].0 in walks && |walks[q[i].0]| == q[i].1 + 1)
    && (forall i :: 0 <= i < |q| ==> h <= q[i].1 <= h + 1)
    && (forall i, j :: 0 <= i < j < |q| ==> q[i].1 <= q[j].1 && q[i].0 != q[j].0)
    && (forall v :: v in open ==> exists i :: 0 <= i < |q| && q[i].0 == v)
  }

  ghost function Vertices(g: Graph, src: int): set<int> {
    {src} + set v, n | v in g && n in g[v] :: n
  }

  /** What holds between two turns of the outer loop. */
  ghost predicate BfsInv(g: Graph, src: int, dst: int, seen: set<int>, q: seq<(int, nat)>,
                         walks: map<int, seq<int>>, expanded: set<int>) {
    && Searched(g, src, walks, expanded) && dst !in seen
    && walks.Keys == seen && expanded <= seen && seen <= Vertices(g, src)
    && QueueOk(q, walks, seen - expanded, if q == [] then 0 else q[0].1)
    && (q != [] ==> forall u :: u in expanded ==> |walks[u]| <= q[0].1 + 1)
  }

  lemma BfsStart(g: Graph, src: int, dst: int)
    requires src != dst
    ensures BfsInv(g, src, dst, {src}, [(src, 0)], map[src := [src]], {})
  {
    var q := [(src, 0 as nat)];
    assert q[0].0 == src;
  }

  lemma BfsHead(g: Graph, src: int, dst: int, seen: set<int>, q: seq<(int, nat)>,
                walks: map<int, seq<int>>, expanded: set<int>)
    requires BfsInv(g, src, dst, seen, q, walks, expanded) && q != []
    ensures q[0].0 in Vertices(g, src) - expanded
  {
  }

  class Topology {
    const tac: map<int, int>   // cell id to tracking area code
    var neigh: Graph
    var taiNeigh: Graph

    constructor (tac: map<int, int>, neigh: Graph, taiNeigh: Graph)
      ensures this.tac == tac && this.neigh == neigh && this.taiNeigh == taiNeigh
    {
      this.tac, this.neigh, this.taiNeigh := tac, neigh, taiNeigh;
    }

    /** Cell adjacency from the distance test, and the tracking-area graph from cell adjacency. */
    static method Build(ids: seq<int>, tac: map<int, int>, near: (int, int) -> bool) returns (t: Topology)
      requires Symmetric(near) && Distinct(ids) && forall c :: c in tac <==> c in ids
      ensures fresh(t) && t.tac == tac
      ensures forall a, b :: b in Adj(t.neigh, a) <==> Touch(ids, near, a, b)
      ensures CellGraph(tac, t.neigh) && Quotient(tac, t.neigh, t.taiNeigh)
    {
      var neigh := BuildNeighbours(ids, near);
      assert CellGraph(tac, neigh) by {
        forall a, b | b in Adj(neigh, a) ensures a in tac && b in tac && a in Adj(neigh, b) {
          assert Touch(ids, near, a, b) && Touch(ids, near, b, a);
        }
      }
      var taiNeigh := BuildTaiNeighbours(tac, neigh);
      t := new Topology(tac, neigh, taiNeigh);
    }

    /** The number of hops of a shortest path between two tracking areas, or None when there is no path.
        Looking a tracking area up may add an empty entry for it, which leaves the graph the same. */
    method TaiHops(src: int, dst: int) returns (hops: Option<nat>)
      modifies this`taiNeigh
      ensures ShortestHops(old(taiNeigh), src, dst, hops)
      ensures forall v :: Adj(taiNeigh, v) == Adj(old(taiNeigh), v)
    {
      ghost var g := taiNeigh;
      if src == dst {
        NoHops(g, src);
        return Some(0);
      }
      var seen, q := {src}, [(src, 0 as nat)];
      ghost var walks, expanded: set<int> := map[src := [src]], {};
      BfsStart(g, src, dst);
      hide *;
      while q != []
        invariant forall v :: Adj(taiNeigh, v) == Adj(g, v)
        invariant BfsInv(g, src, dst, seen, q, walks, expanded)
        decreases |Vertices(g, src) - expanded|
      {
        BfsHead(g, src, dst, seen, q, walks, expanded);
        var (t, h) := q[0];
        var rest := q[1..];
        assert q == [(t, h)] + rest;
        if t !in taiNeigh {
          AddsNothing(taiNeigh, t);
          taiNeigh := taiNeigh[t := {}];
        }
        var found;
        found, seen, q, walks := Expand(g, src, dst, t, h, Adj(taiNeigh, t), seen, rest, walks, expanded);
        if found {
          return Some(h + 1);
        }
        SubsetSize(Vertices(g, src) - (expanded + {t}), Vertices(g, src) - expanded);
        expanded := expanded + {t};
      }
      NothingLeft(g, src, dst, seen, walks, expanded);
      return None;
    }
  }

  lemma NoHops(g: Graph, v: int)
    ensures ShortestHops(g, v, v, Some(0))
  {
    assert IsWalk(g, [v], v, v);
  }

  lemma AddsNothing(g: Graph, t: int)
    requires t !in g
    ensures forall v :: Adj(g[t := {}], v) == Adj(g, v)
  {
  }

  lemma NothingLeft(g: Graph, src: int, dst: int, seen: set<int>, walks: map<int, seq<int>>, expanded: set<int>)
    requires BfsInv(g, src, dst, seen, [], walks, expanded)
    ensures ShortestHops(g, src, dst, None)
  {
    forall v | v in seen ensures v in expanded {
      assert v in seen - expanded || v in expanded;
    }
    forall p ensures !IsWalk(g, p, src, dst) {
      if IsWalk(g, p, src, dst) {
        WalkCrossesFrontier(g, src, dst, walks, expanded, |p|, p, 0);
      }
    }
  }

  /** The inner loop: look at every neighbour of `t`, stop when one is `dst`, queue the new ones. */
  method Expand(ghost g: Graph, ghost src: int, dst: int, t: int, h: nat, neighbours: set<int>,
                seen: set<int>, q: seq<(int, nat)>, ghost walks: map<int, seq<int>>, ghost expanded: set<int>)
    returns (found: bool, seen': set<int>, q': seq<(int, nat)>, ghost walks': map<int, seq<int>>)
    requires neighbours == Adj(g, t)
    requires BfsInv(g, src, dst, seen, [(t, h)] + q, walks, expanded)
    ensures found ==> ShortestHops(g, src, dst, Some(h + 1))
    ensures !found ==> BfsInv(g, src, dst, seen', q', walks', expanded + {t})
  {
    hide *;
    seen', q', walks' := seen, q, walks;
    var todo := neighbours;
    ExpandStarts(g, src, dst, t, h, seen, q, walks, expanded);
    while todo != {}
      invariant todo <= neighbours && ExpandInv(g, src, dst, t, h, seen', q', walks', expanded, Adj(g, t) - todo)
      decreases todo
    {
      HasMember(todo);
      var n :| n in todo;
      if n == dst {
        ExpandFinds(g, src, dst, t, h, seen', q', walks', expanded, Adj(g, t) - todo);
        return true, seen', q', walks';
      }
      ExpandSteps(g, src, dst, t, h, seen', q', walks', expanded, Adj(g, t) - todo, n);
      if n !in seen' {
        walks' := walks'[n := WalkTo(walks', t, n)];
        seen' := seen' + {n};
        q' := q' + [(n, h + 1)];
      }
      assert Adj(g, t) - (todo - {n}) == (Adj(g, t) - todo) + {n};
      todo := todo - {n};
    }
    assert Adj(g, t) - todo == Adj(g, t);
    found := false;
    ExpandEnds(g, src, dst, t, h, seen', q', walks', expanded);
  }

  ghost function WalkTo(walks: map<int, seq<int>>, t: int, n: int): seq<int> {
    (if t in walks then walks[t] else []) + [n]
  }

  /** What holds while `t` is being expanded and its neighbours `done` have been looked at. */
  ghost predicate ExpandInv(g: Graph, src: int, dst: int, t: int, h: nat, seen: set<int>, q: seq<(int, nat)>,
                            walks: map<int, seq<int>>, expanded: set<int>, done: set<int>) {
    && Searched(g, src, walks, expanded) && dst !in seen
    && walks.Keys == seen && expanded <= seen && seen <= Vertices(g, src)
    && t in seen && t !in expanded && |walks[t]| == h + 1
    && QueueOk(q, walks, seen - expanded - {t}, h)
    && (forall u :: u in expanded ==> |walks[u]| <= h + 1)
    && (forall n :: n in done ==> n in walks && |walks[n]| <= h + 2)
  }

  lemma ExpandStarts(g: Graph, src: int, dst: int, t: int, h: nat, seen: set<int>, q: seq<(int, nat)>,
                     walks: map<int, seq<int>>, expanded: set<int>)
    requires BfsInv(g, src, dst, seen, [(t, h)] + q, walks, expanded)
    ensures ExpandInv(g, src, dst, t, h, seen, q, walks, expanded, Adj(g, t) - Adj(g, t))
  {
    hide QueueOk, Searched, Vertices;
    assert ([(t, h)] + q)[0] == (t, h);
    QueuePopped(t, h, q, walks, seen - expanded);
  }

  lemma ExpandFinds(g: Graph, src: int, dst: int, t: int, h: nat, seen: set<int>, q: seq<(int, nat)>,
                    walks: map<int, seq<int>>, expanded: set<int>, done: set<int>)
    requires ExpandInv(g, src, dst, t, h, seen, q, walks, expanded, done) && dst in Adj(g, t)
    ensures ShortestHops(g, src, dst, Some(h + 1))
  {
    hide QueueOk, Searched, Vertices, ShortestHops, Adj;
    FoundShortest(g, src, dst, t, h, q, walks, expanded);
  }

  /** Looking at a neighbour that is not `dst`: it is queued when it is new. */
  lemma ExpandSteps(g: Graph, src: int, dst: int, t: int, h: nat, seen: set<int>, q: seq<(int, nat)>,
                    walks: map<int, seq<int>>, expanded: set<int>, done: set<int>, n: int)
    requires ExpandInv(g, src, dst, t, h, seen, q, walks, expanded, done) && n in Adj(g, t) && n != dst
    ensures if n in seen
            then ExpandInv(g, src, dst, t, h, seen, q, walks, expanded, done + {n})
            else ExpandInv(g, src, dst, t, h, seen + {n}, q + [(n, h + 1)], walks[n := WalkTo(walks, t, n)],
                           expanded, done + {n})
  {
    hide QueueOk, Searched, Vertices, Adj, IsWalk;
    if n in seen {
      NearEnough(q, walks, expanded, t, h, n);
    } else {
      var w := WalkTo(walks, t, n);
      assert IsWalk(g, walks[t], src, t) by { WalkKnown(g, src, walks, expanded, t); }
      WalkExtends(g, walks[t], src, t, n);
      QueuePushed(q, walks, seen - expanded - {t}, h, n, w);
      SearchedMore(g, src, walks, expanded, n, w);
      InVertices(g, src, t, n);
      assert seen + {n} - expanded - {t} == (seen - expanded - {t}) + {n};
    }
  }

  lemma WalkKnown(g: Graph, src: int, walks: map<int, seq<int>>, expanded: set<int>, t: int)
    requires Searched(g, src, walks, expanded) && t in walks
    ensures IsWalk(g, walks[t], src, t)
  {
  }

  lemma ExpandEnds(g: Graph, src: int, dst: int, t: int, h: nat, seen: set<int>, q: seq<(int, nat)>,
                   walks: map<int, seq<int>>, expanded: set<int>)
    requires ExpandInv(g, src, dst, t, h, seen, q, walks, expanded, Adj(g, t))
    ensures BfsInv(g, src, dst, seen, q, walks, expanded + {t})
  {
    hide QueueOk, Vertices, Adj, IsWalk, Settled;
    assert seen - (expanded + {t}) == seen - expanded - {t};
    QueueRebased(q, walks, seen - (expanded + {t}), h);
    SettledNow(g, walks, t, h);
  }

  lemma InVertices(g: Graph, src: int, t: int, n: int)
    requires n in Adj(g, t)
    ensures n in Vertices(g, src)
  {
  }

  lemma SettledNow(g: Graph, walks: map<int, seq<int>>, t: int, h: nat)
    requires t in walks && |walks[t]| == h + 1
    requires forall n :: n in Adj(g, t) ==> n in walks && |walks[n]| <= h + 2
    ensures Settled(g, walks, t)
  {
  }

  /** Every vertex seen while `t` is expanded is at most one hop further away than `t`. */
  lemma NearEnough(q: seq<(int, nat)>, walks: map<int, seq<int>>, expanded: set<int>, t: int, h: nat, n: int)
    requires QueueOk(q, walks, walks.Keys - expanded - {t}, h) && n in walks
    requires expanded <= walks.Keys && forall u :: u in expanded ==> |walks[u]| <= h + 1
    requires t in walks && |walks[t]| == h + 1
    ensures |walks[n]| <= h + 2
  {
    if n !in expanded && n != t {
      assert n in walks.Keys - expanded - {t};
      var i :| 0 <= i < |q| && q[i].0 == n;
    }
  }

  lemma QueuePopped(t: int, h: nat, q: seq<(int, nat)>, walks: map<int, seq<int>>, open: set<int>)
    requires QueueOk([(t, h)] + q, walks, open, h)
    ensures QueueOk(q, walks, open - {t}, h) && t in open && t in walks && |walks[t]| == h + 1
  {
    var all := [(t, h)] + q;
    assert all[0] == (t, h);
    forall i | 0 <= i < |q|
      ensures q[i].0 in open - {t} && q[i].0 in walks && |walks[q[i].0]| == q[i].1 + 1 && h <= q[i].1 <= h + 1
    {
      assert q[i] == all[i + 1];
    }
    forall i, j | 0 <= i < j < |q| ensures q[i].1 <= q[j].1 && q[i].0 != q[j].0 {
      assert q[i] == all[i + 1] && q[j] == all[j + 1];
    }
    forall v | v in open - {t} ensures exists i :: 0 <= i < |q| && q[i].0 == v {
      var i :| 0 <= i < |all| && all[i].0 == v;
      assert q[i - 1].0 == v;
    }
  }

  lemma QueuePushed(q: seq<(int, nat)>, walks: map<int, seq<int>>, open: set<int>, h: nat, n: int, w: seq<int>)
    requires QueueOk(q, walks, open, h) && n !in walks && n !in open && |w| == h + 2
    ensures QueueOk(q + [(n, h + 1)], walks[n := w], open + {n}, h)
  {
    var q', walks' := q + [(n, h + 1)], walks[n := w];
    forall v | v in open + {n} ensures exists i :: 0 <= i < |q'| && q'[i].0 == v {
      if v == n {
        assert q'[|q|].0 == n;
      } else {
        var i :| 0 <= i < |q| && q[i].0 == v;
        assert q'[i].0 == v;
      }
    }
  }

  lemma QueueRebased(q: seq<(int, nat)>, walks: map<int, seq<int>>, open: set<int>, h: nat)
    requires QueueOk(q, walks, open, h)
    ensures QueueOk(q, walks, open, if q == [] then 0 else q[0].1)
    ensures q != [] ==> h <= q[0].1
  {
  }

  lemma SearchedMore(g: Graph, src: int, walks: map<int, seq<int>>, expanded: set<int>, n: int, w: seq<int>)
    requires Searched(g, src, walks, expanded) && n !in walks && IsWalk(g, w, src, n)
    ensures Searched(g, src, walks[n := w], expanded)
  {
  }

  lemma FoundShortest(g: Graph, src: int, dst: int, t: int, h: nat, q: seq<(int, nat)>,
                      walks: map<int, seq<int>>, expanded: set<int>)
    requires Searched(g, src, walks, expanded) && dst !in walks && expanded <= walks.Keys
    requires t in walks && |walks[t]| == h + 1 && dst in Adj(g, t)
    requires QueueOk(q, walks, walks.Keys - expanded - {t}, h)
    ensures ShortestHops(g, src, dst, Some(h + 1))
  {
    WalkExtends(g, walks[t], src, t, dst);
    assert |walks[t] + [dst]| == h + 2;
    forall u | u in walks && u !in expanded ensures h + 1 <= |walks[u]| {
      if u != t {
        assert u in walks.Keys - expanded - {t};
        var i :| 0 <= i < |q| && q[i].0 == u;
      }
    }
    forall p | IsWalk(g, p, src, dst) ensures h + 2 <= |p| {
      WalkCrossesFrontier(g, src, dst, walks, expanded, h, p, 0);
    }
  }

  // ---------------------------------------------------------------- construction

  /** The distance test between two cells, as an arbitrary symmetric relation. */
  ghost predicate Symmetric(near: (int, int) -> bool) {
    forall a, b :: near(a, b) <==> near(b, a)
  }

  predicate Touch(ids: seq<int>, near: (int, int) -> bool, a: int, b: int) {
    a != b && a in ids && b in ids && near(a, b)
  }

  /** Every edge joins touching cells. */
  ghost predicate EdgesTouch(ids: seq<int>, near: (int, int) -> bool, g: Graph) {
    && (forall a, b :: b in Adj(g, a) ==> Touch(ids, near, a, b))
    && (forall a :: a in g ==> a in ids)
  }

  ghost predicate Joined(g: Graph, a: int, b: int) {
    b in Adj(g, a) && a in Adj(g, b)
  }

  lemma EdgeAdded(ids: seq<int>, near: (int, int) -> bool, g: Graph, a: int, b: int)
    requires EdgesTouch(ids, near, g) && Symmetric(near) && Touch(ids, near, a, b)
    ensures var g' := AddEdge(AddEdge(g, a, b), b, a);
            && EdgesTouch(ids, near, g') && Joined(g', a, b)
            && forall x, y :: Joined(g, x, y) ==> Joined(g', x, y)
  {
  }

  /** The double loop over the cell list joins exactly the touching cells. */
  method BuildNeighbours(ids: seq<int>, near: (int, int) -> bool) returns (g: Graph)
    requires Symmetric(near) && Distinct(ids)
    ensures forall a, b :: b in Adj(g, a) <==> Touch(ids, near, a, b)
    ensures forall a :: a in g ==> a in ids
  {
    g := map[];
    for i := 0 to |ids|
      invariant EdgesTouch(ids, near, g)
      invariant forall x, y :: 0 <= x < i && x < y < |ids| && near(ids[x], ids[y]) ==> Joined(g, ids[x], ids[y])
    {
      g := JoinRow(ids, near, i, g);
    }
    forall a, b | Touch(ids, near, a, b) ensures b in Adj(g, a) {
      var x :| 0 <= x < |ids| && ids[x] == a;
      var y :| 0 <= y < |ids| && ids[y] == b;
      if x < y {
        assert Joined(g, ids[x], ids[y]);
      } else {
        assert near(ids[y], ids[x]);
        assert Joined(g, ids[y], ids[x]);
      }
    }
  }

  method JoinRow(ids: seq<int>, near: (int, int) -> bool, i: nat, g0: Graph) returns (g: Graph)
    requires Symmetric(near) && Distinct(ids) && i < |ids| && EdgesTouch(ids, near, g0)
    ensures EdgesTouch(ids, near, g)
    ensures forall x, y :: Joined(g0, x, y) ==> Joined(g, x, y)
    ensures forall y :: i < y < |ids| && near(ids[i], ids[y]) ==> Joined(g, ids[i], ids[y])
  {
    g := g0;
    var a := ids[i];
    for j := i + 1 to |ids|
      invariant EdgesTouch(ids, near, g)
      invariant forall x, y :: Joined(g0, x, y) ==> Joined(g, x, y)
      invariant forall y :: i < y < j && near(a, ids[y]) ==> Joined(g, a, ids[y])
    {
      var b := ids[j];
      if near(a, b) {
        EdgeAdded(ids, near, g, a, b);
        hide Joined, EdgesTouch;
        g := AddEdge(AddEdge(g, a, b), b, a);
      }
    }
  }

  /** Two tracking areas touch when cells of theirs do. */
  ghost predicate TaiTouch(tac: map<int, int>, neigh: Graph, s: int, t: int) {
    s != t && exists a, b :: a in tac && b in tac && tac[a] == s && tac[b] == t && b in Adj(neigh, a)
  }

  /** `tai` is the quotient of `neigh` by tracking area. */
  ghost predicate Quotient(tac: map<int, int>, neigh: Graph, tai: Graph) {
    forall s, t :: t in Adj(tai, s) <==> TaiTouch(tac, neigh, s, t)
  }

  /** `neigh` joins cells of `tac` and is symmetric. */
  ghost predicate CellGraph(tac: map<int, int>, neigh: Graph) {
    && (forall a, b :: b in Adj(neigh, a) ==> a in tac && b in tac && a in Adj(neigh, b))
    && (forall a :: a in neigh ==> a in tac)
  }

  lemma TaiEdgeAdded(tac: map<int, int>, neigh: Graph, tai: Graph, a: int, b: int)
    requires CellGraph(tac, neigh) && b in Adj(neigh, a) && tac[a] != tac[b]
    requires forall s, t :: t in Adj(tai, s) ==> TaiTouch(tac, neigh, s, t)
    ensures var tai' := AddEdge(AddEdge(tai, tac[a], tac[b]), tac[b], tac[a]);
            && Joined(tai', tac[a], tac[b])
            && (forall s, t :: t in Adj(tai', s) ==> TaiTouch(tac, neigh, s, t))
            && (forall s, t :: t in Adj(tai, s) ==> t in Adj(tai', s))
  {
    assert TaiTouch(tac, neigh, tac[a], tac[b]);
    assert TaiTouch(tac, neigh, tac[b], tac[a]);
  }

  /** The loops over all neighbour pairs build the quotient graph. */
  method BuildTaiNeighbours(tac: map<int, int>, neigh: Graph) returns (tai: Graph)
    requires CellGraph(tac, neigh)
    ensures Quotient(tac, neigh, tai)
  {
    tai := map[];
    var cells := neigh.Keys;
    while cells != {}
      invariant cells <= neigh.Keys
      invariant forall s, t :: t in Adj(tai, s) ==> TaiTouch(tac, neigh, s, t)
      invariant forall a, b :: a !in cells && b in Adj(neigh, a) && tac[a] != tac[b] ==> tac[b] in Adj(tai, tac[a])
      decreases cells
    {
      HasMember(cells);
      var a :| a in cells;
      tai := JoinTais(tac, neigh, a, tai);
      cells := cells - {a};
    }
    forall s, t | TaiTouch(tac, neigh, s, t) ensures t in Adj(tai, s) {
      var a, b :| a in tac && b in tac && tac[a] == s && tac[b] == t && b in Adj(neigh, a);
      assert a !in cells;
    }
  }

  method JoinTais(tac: map<int, int>, neigh: Graph, a: int, tai0: Graph) returns (tai: Graph)
    requires CellGraph(tac, neigh) && a in neigh
    requires forall s, t :: t in Adj(tai0, s) ==> TaiTouch(tac, neigh, s, t)
    ensures forall s, t :: t in Adj(tai, s) ==> TaiTouch(tac, neigh, s, t)
    ensures forall s, t :: t in Adj(tai0, s) ==> t in Adj(tai, s)
    ensures forall b :: b in Adj(neigh, a) && tac[a] != tac[b] ==> tac[b] in Adj(tai, tac[a])
  {
    tai := tai0;
    var todo := neigh[a];
    while todo != {}
      invariant todo <= neigh[a]
      invariant forall s, t :: t in Adj(tai, s) ==> TaiTouch(tac, neigh, s, t)
      invariant forall s, t :: t in Adj(tai0, s) ==> t in Adj(tai, s)
      invariant forall b :: b in Adj(neigh, a) && b !in todo && tac[a] != tac[b] ==> tac[b] in Adj(tai, tac[a])
      decreases todo
    {
      HasMember(todo);
      var b :| b in todo;
      assert b in Adj(neigh, a);
      if tac[a] != tac[b] {
        TaiEdgeAdded(tac, neigh, tai, a, b);
        hide TaiTouch;
        tai := AddEdge(AddEdge(tai, tac[a], tac[b]), tac[b], tac[a]);
      }
      todo := todo - {b};
    }
  }

  // ---------------------------------------------------------------- walks through cells

  predicate Known(tac: map<int, int>, w: seq<int>) {
    forall i :: 0 <= i < |w| ==> w[i] in tac
  }

  /** The tracking areas of cells. */
  function Tacs(tac: map<int, int>, cells: seq<int>): (ts: seq<int>)
    requires Known(tac, cells)
    ensures |ts| == |cells| && forall i :: 0 <= i < |cells| ==> ts[i] == tac[cells[i]]
  {
    seq(|cells|, i requires 0 <= i < |cells| => tac[cells[i]])
  }

  lemma TacsSnoc(tac: map<int, int>, cells: seq<int>, c: int)
    requires Known(tac, cells) && c in tac
    ensures Known(tac, cells + [c]) && Tacs(tac, cells + [c]) == Tacs(tac, cells) + [tac[c]]
  {
  }

  /** Append `x` unless the sequence already ends with it. */
  function AppendChange(s: seq<int>, x: int): seq<int> {
    if s != [] && s[|s| - 1] == x then s else s + [x]
  }

  /** A sequence with immediate repeats dropped. */
  function DropRepeats(s: seq<int>): (r: seq<int>)
    ensures s != [] ==> r != [] && r[|r| - 1] == s[|s| - 1]
  {
    if s == [] then [] else AppendChange(DropRepeats(s[..|s| - 1]), s[|s| - 1])
  }

  lemma DropRepeatsSnoc(s: seq<int>, x: int)
    ensures DropRepeats(s + [x]) == AppendChange(DropRepeats(s), x)
  {
    assert (s + [x])[..|s|] == s;
  }

  /** How often a walk through cells changes its tracking area. */
  function Changes(tac: map<int, int>, w: seq<int>): nat
    requires Known(tac, w)
  {
    if |w| <= 1 then 0
    else Changes(tac, w[..|w| - 1]) + if tac[w[|w| - 2]] != tac[w[|w| - 1]] then 1 else 0
  }

  lemma ChangesSnoc(tac: map<int, int>, w: seq<int>, c: int)
    requires w != [] && Known(tac, w) && c in tac
    ensures Known(tac, w + [c])
    ensures Changes(tac, w + [c]) == Changes(tac, w) + if tac[w[|w| - 1]] != tac[c] then 1 else 0
  {
    var longer := w + [c];
    assert longer[..|longer| - 1] == w && longer[|longer| - 2] == w[|w| - 1] && longer[|longer| - 1] == c;
  }

  lemma {:induction false} WalkStaysInTopology(tac: map<int, int>, neigh: Graph, w: seq<int>, a: int, b: int)
    requires CellGraph(tac, neigh) && IsWalk(neigh, w, a, b) && a in tac
    ensures Known(tac, w)
  {
    forall i | 0 <= i < |w| ensures w[i] in tac {
      if i > 0 {
        var u, v := w[i - 1], w[i - 1 + 1];
        assert v in Adj(neigh, u);
      }
    }
  }

  lemma WalkShortens(g: Graph, p: seq<int>, a: int, b: int)
    requires IsWalk(g, p, a, b) && |p| > 1
    ensures var q, c := p[..|p| - 1], p[|p| - 2];
            p == q + [b] && q[|q| - 1] == c && IsWalk(g, q, a, c) && b in Adj(g, c)
  {
    var q := p[..|p| - 1];
    assert p == q + [p[|p| - 1]];
    assert p[|p| - 2 + 1] in Adj(g, p[|p| - 2]);
    forall i | 0 <= i < |q| - 1 ensures q[i + 1] in Adj(g, q[i]) {
      assert p[i + 1] in Adj(g, p[i]);
    }
  }

  /** A walk goes on to a neighbour, or stays where it is. */
  lemma WalkAppends(g: Graph, p: seq<int>, a: int, b: int, c: int)
    requires IsWalk(g, p, a, b) && (b == c || c in Adj(g, b))
    ensures IsWalk(g, AppendChange(p, c), a, c)
    ensures |AppendChange(p, c)| == |p| + if b == c then 0 else 1
  {
    if b != c {
      WalkExtends(g, p, a, b, c);
    }
  }

  /** A walk through cells projects to a walk through tracking areas, one hop per change. */
  lemma {:induction false} WalkProjects(tac: map<int, int>, neigh: Graph, tai: Graph, w: seq<int>, a: int, b: int)
    requires CellGraph(tac, neigh) && Quotient(tac, neigh, tai) && IsWalk(neigh, w, a, b)
    requires Known(tac, w)
    ensures IsWalk(tai, DropRepeats(Tacs(tac, w)), tac[a], tac[b])
    ensures |DropRepeats(Tacs(tac, w))| == Changes(tac, w) + 1
    decreases |w|
  {
    if |w| == 1 {
      OneCell(tac, tai, w);
    } else {
      WalkShortens(neigh, w, a, b);
      var front, c := w[..|w| - 1], w[|w| - 2];
      WalkProjects(tac, neigh, tai, front, a, c);
      QuotientStep(tac, neigh, tai, c, b);
      hide *;
      TacsSnoc(tac, front, b);
      DropRepeatsSnoc(Tacs(tac, front), tac[b]);
      ChangesSnoc(tac, front, b);
      WalkAppends(tai, DropRepeats(Tacs(tac, front)), tac[a], tac[c], tac[b]);
    }
  }

  lemma OneCell(tac: map<int, int>, tai: Graph, w: seq<int>)
    requires |w| == 1 && Known(tac, w)
    ensures IsWalk(tai, DropRepeats(Tacs(tac, w)), tac[w[0]], tac[w[0]])
    ensures |DropRepeats(Tacs(tac, w))| == Changes(tac, w) + 1
  {
    assert Tacs(tac, w) == [] + [tac[w[0]]];
    DropRepeatsSnoc([], tac[w[0]]);
  }

  lemma QuotientStep(tac: map<int, int>, neigh: Graph, tai: Graph, c: int, b: int)
    requires CellGraph(tac, neigh) && Quotient(tac, neigh, tai) && b in Adj(neigh, c)
    ensures c in tac && b in tac && (tac[c] == tac[b] || tac[b] in Adj(tai, tac[c]))
  {
    if tac[c] != tac[b] {
      assert TaiTouch(tac, neigh, tac[c], tac[b]);
    }
  }

  /** Every walk through neighbouring cells changes its tracking area at least as often as the hop count
      says; where the hop count is None there is no such walk. */
  lemma HopsBoundCellWalks(tac: map<int, int>, neigh: Graph, tai: Graph, w: seq<int>, a: int, b: int, hops: Option<nat>)
    requires CellGraph(tac, neigh) && Quotient(tac, neigh, tai)
    requires a in tac && IsWalk(neigh, w, a, b)
    ensures Known(tac, w) && b in tac
    ensures ShortestHops(tai, tac[a], tac[b], hops) ==> hops.Some? && hops.value <= Changes(tac, w)
  {
    WalkStaysInTopology(tac, neigh, w, a, b);
    assert b == w[|w| - 1];
    WalkProjects(tac, neigh, tai, w, a, b);
  }

  // ---------------------------------------------------------------- when the bound is attained

  /** A walk that stays in the tracking area of its first cell. */
  predicate Inside(tac: map<int, int>, w: seq<int>) {
    Known(tac, w) && forall i :: 0 <= i < |w| ==> tac[w[i]] == tac[w[0]]
  }

  /** Any two cells of one tracking area are joined by a walk inside it. */
  ghost predicate AreasConnected(tac: map<int, int>, neigh: Graph) {
    forall a, b :: a in tac && b in tac && tac[a] == tac[b] ==> exists w :: IsWalk(neigh, w, a, b) && Inside(tac, w)
  }

  /** A walk from `a` to `b` with exactly `h` changes of tracking area. */
  ghost predicate WalkWith(tac: map<int, int>, neigh: Graph, a: int, b: int, h: nat) {
    exists w :: IsWalk(neigh, w, a, b) && Known(tac, w) && Changes(tac, w) == h
  }

  /** Every hop count is the number of changes on some walk through cells. */
  ghost predicate HopsAttained(tac: map<int, int>, neigh: Graph, tai: Graph) {
    forall a, b, h: nat :: a in tac && b in tac && ShortestHops(tai, tac[a], tac[b], Some(h)) ==>
                             WalkWith(tac, neigh, a, b, h)
  }

  lemma {:induction false} ContinueInside(tac: map<int, int>, neigh: Graph, a: int, c: int, b: int, h: nat, v: seq<int>)
    requires WalkWith(tac, neigh, a, c, h) && IsWalk(neigh, v, c, b) && Inside(tac, v)
    ensures WalkWith(tac, neigh, a, b, h)
    decreases |v|
  {
    if |v| > 1 {
      var u, d := v[..|v| - 1], v[|v| - 2];
      WalkShortens(neigh, v, c, b);
      assert forall i :: 0 <= i < |u| ==> u[i] == v[i];
      assert tac[v[|v| - 2]] == tac[v[0]] && tac[v[|v| - 1]] == tac[v[0]];
      ContinueInside(tac, neigh, a, c, d, h, u);
      var w :| IsWalk(neigh, w, a, d) && Known(tac, w) && Changes(tac, w) == h;
      WalkExtends(neigh, w, a, d, b);
      ChangesSnoc(tac, w, b);
    }
  }

  lemma StayInArea(tac: map<int, int>, neigh: Graph, a: int, b: int)
    requires AreasConnected(tac, neigh) && a in tac && b in tac && tac[a] == tac[b]
    ensures WalkWith(tac, neigh, a, b, 0)
  {
    assert IsWalk(neigh, [a], a, a) && Known(tac, [a]) && Changes(tac, [a]) == 0;
    var v :| IsWalk(neigh, v, a, b) && Inside(tac, v);
    ContinueInside(tac, neigh, a, a, b, 0, v);
  }

  lemma ChangeArea(tac: map<int, int>, neigh: Graph, a: int, x: int, y: int, b: int, h: nat)
    requires WalkWith(tac, neigh, a, x, h) && AreasConnected(tac, neigh)
    requires x in tac && y in tac && b in tac && y in Adj(neigh, x) && tac[x] != tac[y] && tac[y] == tac[b]
    ensures WalkWith(tac, neigh, a, b, h + 1)
  {
    var w :| IsWalk(neigh, w, a, x) && Known(tac, w) && Changes(tac, w) == h;
    WalkExtends(neigh, w, a, x, y);
    ChangesSnoc(tac, w, y);
    var v :| IsWalk(neigh, v, y, b) && Inside(tac, v);
    ContinueInside(tac, neigh, a, y, b, h + 1, v);
  }

  /** With connected areas a walk through tracking areas lifts to one through cells. */
  lemma {:induction false} WalkLifts(tac: map<int, int>, neigh: Graph, tai: Graph, p: seq<int>, a: int, b: int)
    requires CellGraph(tac, neigh) && Quotient(tac, neigh, tai) && AreasConnected(tac, neigh)
    requires a in tac && b in tac && IsWalk(tai, p, tac[a], tac[b])
    ensures WalkWith(tac, neigh, a, b, |p| - 1)
    decreases |p|
  {
    hide WalkWith, AreasConnected, CellGraph;
    if |p| == 1 {
      assert tac[a] == p[0] == tac[b];
      StayInArea(tac, neigh, a, b);
    } else {
      WalkShortens(tai, p, tac[a], tac[b]);
      var q, s := p[..|p| - 1], p[|p| - 2];
      assert TaiTouch(tac, neigh, s, tac[b]);
      var x, y :| x in tac && y in tac && tac[x] == s && tac[y] == tac[b] && y in Adj(neigh, x);
      WalkLifts(tac, neigh, tai, q, a, x);
      ChangeArea(tac, neigh, a, x, y, b, |q| - 1);
    }
  }

  lemma {:induction false} NoChangesInside(tac: map<int, int>, w: seq<int>, i: nat)
    requires Known(tac, w) && Changes(tac, w) == 0 && i < |w|
    ensures tac[w[i]] == tac[w[|w| - 1]]
    decreases |w|
  {
    if i < |w| - 1 {
      NoChangesInside(tac, w[..|w| - 1], i);
    }
  }

  /** The hop count between the areas of any two cells is attained by a walk through cells if and only if
      every tracking area is connected. */
  lemma HopsAttainedIff(tac: map<int, int>, neigh: Graph, tai: Graph)
    requires CellGraph(tac, neigh) && Quotient(tac, neigh, tai)
    ensures HopsAttained(tac, neigh, tai) <==> AreasConnected(tac, neigh)
  {
    if AreasConnected(tac, neigh) {
      forall a, b, h: nat | a in tac && b in tac && ShortestHops(tai, tac[a], tac[b], Some(h))
        ensures WalkWith(tac, neigh, a, b, h)
      {
        var p :| IsWalk(tai, p, tac[a], tac[b]) && |p| == h + 1;
        WalkLifts(tac, neigh, tai, p, a, b);
      }
    }
    if HopsAttained(tac, neigh, tai) {
      forall a, b | a in tac && b in tac && tac[a] == tac[b] ensures exists w :: IsWalk(neigh, w, a, b) && Inside(tac, w) {
        NoHops(tai, tac[a]);
        assert WalkWith(tac, neigh, a, b, 0);
        var w :| IsWalk(neigh, w, a, b) && Known(tac, w) && Changes(tac, w) == 0;
        forall i | 0 <= i < |w| ensures tac[w[i]] == tac[w[0]] {
          NoChangesInside(tac, w, i);
          NoChangesInside(tac, w, 0);
        }
        assert Inside(tac, w);
      }
    }
  }

  /** A topology whose middle area is not connected: its outer areas are two hops apart, and no walk
      through cells connects them. */
  lemma HopsMayHaveNoCellWalk(w: seq<int>)
    ensures var tac := map[1 := 3, 2 := 10, 4 := 10, 5 := 11];
            var neigh: Graph := map[1 := {2}, 2 := {1}, 4 := {5}, 5 := {4}];
            var tai: Graph := map[3 := {10}, 10 := {3, 11}, 11 := {10}];
            && CellGraph(tac, neigh) && Quotient(tac, neigh, tai)
            && ShortestHops(tai, 3, 11, Some(2))
            && !IsWalk(neigh, w, 1, 5)
  {
    var tac := map[1 := 3, 2 := 10, 4 := 10, 5 := 11];
    var neigh: Graph := map[1 := {2}, 2 := {1}, 4 := {5}, 5 := {4}];
    var tai: Graph := map[3 := {10}, 10 := {3, 11}, 11 := {10}];
    assert 2 in Adj(neigh, 1) && 1 in Adj(neigh, 2) && 5 in Adj(neigh, 4) && 4 in Adj(neigh, 5);
    assert IsWalk(tai, [3, 10, 11], 3, 11);
    forall p | IsWalk(tai, p, 3, 11) ensures 3 <= |p| {
      if |p| >= 2 {
        assert p[0 + 1] in Adj(tai, p[0]);
      }
    }
    if IsWalk(neigh, w, 1, 5) {
      StaysIn(neigh, w, |w| - 1);
    }
  }

  lemma {:induction false} StaysIn(neigh: Graph, w: seq<int>, i: nat)
    requires Adj(neigh, 1) == {2} && Adj(neigh, 2) == {1} && IsWalk(neigh, w, 1, 5) && i < |w|
    ensures w[i] == 1 || w[i] == 2
  {
    if i > 0 {
      StaysIn(neigh, w, i - 1);
      assert w[i - 1 + 1] in Adj(neigh, w[i - 1]);
    }
  }
}
