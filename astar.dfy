/**
 * The A* shortest-path solver (graph/AStarSolver.java).
 *
 * The constructor runs a best-first search from `start`, keeping the best
 * known cost `distTo` and predecessor `edgeTo` of every vertex seen and a
 * min-priority frontier keyed by cost plus heuristic, then classifies the
 * run as SOLVED, TIMEOUT or UNSOLVABLE and rebuilds the path by walking
 * `edgeTo` back from the goal.
 *
 * The graph is given by its outgoing edge lists and its heuristic, the
 * frontier is a `MinPQ` value, and the stopwatch is a sequence of readings:
 * `clock[k]` is what the k-th call of `elapsedTime` returns.
 * One relaxation, and one round of the loop, are also described on values
 * (`RelaxStep`, `Settle`), and the invariants of the search are stated and
 * proved there.
 */
module AStar {
  import opened MinPriorityQueue

  datatype SolverOutcome = Solved | Timeout | Unsolvable

  /** One directed edge `from -> to` of cost `weight`. */
  datatype WeightedEdge<V> = WeightedEdge(from: V, to: V, weight: real)

  /**
   * The graph as the solver sees it: the outgoing edges of each vertex
   * (a vertex the map leaves out has none) and a heuristic.
   */
  datatype AStarGraph<!V> = AStarGraph(
    adjacency: map<V, seq<WeightedEdge<V>>>,
    estimatedDistanceToGoal: (V, V) -> real)

  /** The edges out of `v`, as `neighbors` lists them. */
  function Edges<V>(g: AStarGraph<V>, v: V): seq<WeightedEdge<V>> {
    if v in g.adjacency then g.adjacency[v] else []
  }

  /** Every edge listed for `v` leaves `v` and has a non-negative weight. */
  ghost predicate WellFormed<V(!new)>(g: AStarGraph<V>) {
    forall v, e :: e in Edges(g, v) ==> e.from == v && e.weight >= 0.0
  }

  /**
   * `es` is a walk of `g` from `from` through the vertices `vs`: edge `i`
   * is listed among the edges out of the vertex before `vs[i]` and ends
   * at `vs[i]`.
   */
  ghost predicate IsRoute<V>(g: AStarGraph<V>, es: seq<WeightedEdge<V>>, from: V, vs: seq<V>) {
    && |es| == |vs|
    && forall i :: 0 <= i < |es| ==>
         && es[i].from == (if i == 0 then from else vs[i - 1])
         && es[i] in Edges(g, es[i].from)
         && es[i].to == vs[i]
  }

  /** The summed weight of a walk. */
  function Weight<V>(es: seq<WeightedEdge<V>>): real {
    if es == [] then 0.0 else Weight(es[..|es| - 1]) + es[|es| - 1].weight
  }

  /** `to` is `from` or the last vertex of a walk of `g` from `from`. */
  ghost predicate Reaches<V(!new)>(g: AStarGraph<V>, from: V, to: V) {
    || from == to
    || exists es, vs :: IsRoute(g, es, from, vs) && vs != [] && vs[|vs| - 1] == to
  }

  /** Edge `i` of a walk leaves the vertex before `vs[i]`, is an edge of `g`, and ends at `vs[i]`. */
  lemma RouteEdge<V>(g: AStarGraph<V>, es: seq<WeightedEdge<V>>, from: V, vs: seq<V>, i: int)
    requires IsRoute(g, es, from, vs) && 0 <= i < |es|
    ensures es[i].from == (if i == 0 then from else vs[i - 1])
    ensures es[i] in Edges(g, es[i].from) && es[i].to == vs[i]
  {
  }

  // ---------------------------------------------------------------------
  // Costs
  // ---------------------------------------------------------------------

  /**
   * A `distTo` entry: an exact cost, or `Infinite`, the placeholder the
   * solver stores for a vertex it has seen but not yet reached.
   */
  datatype Cost = Finite(value: real) | Infinite

  /** `a` is strictly cheaper than `b`; nothing is cheaper than `Infinite`'s sum. */
  predicate Less(a: Cost, b: Cost) {
    a.Finite? && (b.Infinite? || a.value < b.value)
  }

  /** The cost of going `w` further than `c`. */
  function Plus(c: Cost, w: real): Cost {
    if c.Infinite? then Infinite else Finite(c.value + w)
  }

  /** The entry for `v`, an absent one counting as `Infinite`. */
  function Lookup<V>(d: map<V, Cost>, v: V): Cost {
    if v in d then d[v] else Infinite
  }

  /** The cheaper of `a` and `b`; `a` on a tie. */
  function MinCost(a: Cost, b: Cost): (m: Cost)
    ensures m == a || m == b
    ensures !Less(a, m) && !Less(b, m)
    ensures m == b ==> a == b || Less(b, a)
  {
    if Less(b, a) then b else a
  }

  // ---------------------------------------------------------------------
  // The search state as a value
  // ---------------------------------------------------------------------

  /**
   * The search state: the two maps, the frontier's priorities, and proof
   * bookkeeping: `stamp[v]` is the `tick` at which `edgeTo[v]` was last
   * written.
   */
  datatype SearchState<V> = SearchState(
    distTo: map<V, Cost>,
    edgeTo: map<V, V>,
    frontier: map<V, real>,
    stamp: map<V, nat>,
    tick: nat)

  /** Whether relaxing `e` strictly improves the cost of its target. */
  predicate Improves<V>(s: SearchState<V>, e: WeightedEdge<V>)
    requires e.from in s.distTo
  {
    Less(Plus(s.distTo[e.from], e.weight), Lookup(s.distTo, e.to))
  }

  /**
   * What `relax` does: an unseen target gets the `Infinite` placeholder;
   * then, only on a strict improvement, the target's cost, predecessor and
   * frontier priority (cost plus heuristic) are set. Afterwards the target
   * has an entry that costs no more than the way through the edge.
   */
  function RelaxStep<V>(s: SearchState<V>, e: WeightedEdge<V>, g: AStarGraph<V>, end: V): (r: SearchState<V>)
    requires e.from in s.distTo
    ensures e.to in r.distTo
    ensures !Less(Plus(s.distTo[e.from], e.weight), r.distTo[e.to])
  {
    var p, q, w := e.from, e.to, e.weight;
    var d := if q in s.distTo then s.distTo else s.distTo[q := Infinite];
    var cand := Plus(d[p], w);
    if Less(cand, d[q]) then
      SearchState(d[q := cand], s.edgeTo[q := p],
                  s.frontier[q := cand.value + g.estimatedDistanceToGoal(q, end)],
                  s.stamp[q := s.tick], s.tick + 1)
    else
      SearchState(d, s.edgeTo, s.frontier, s.stamp, s.tick)
  }

  /**
   * The cost of the target becomes the smaller of its old cost (`Infinite`
   * when absent) and the cost through the edge, the old one on a tie; no
   * other cost changes and none increases. On a strict improvement the
   * target's predecessor becomes the edge's source and its frontier
   * priority its new cost plus heuristic; otherwise neither map nor the
   * frontier changes.
   */
  lemma RelaxStepEffect<V>(s: SearchState<V>, e: WeightedEdge<V>, g: AStarGraph<V>, end: V)
    requires e.from in s.distTo
    ensures var r := RelaxStep(s, e, g, end);
      && r.distTo.Keys == s.distTo.Keys + {e.to}
      && r.distTo[e.to] == MinCost(Lookup(s.distTo, e.to), Plus(s.distTo[e.from], e.weight))
      && (forall v :: v in s.distTo && v != e.to ==> r.distTo[v] == s.distTo[v])
      && (forall v :: v in s.distTo ==> !Less(s.distTo[v], r.distTo[v]))
      && (Improves(s, e) ==>
            && r.edgeTo == s.edgeTo[e.to := e.from]
            && r.frontier == s.frontier[e.to := r.distTo[e.to].value + g.estimatedDistanceToGoal(e.to, end)])
      && (!Improves(s, e) ==> r.edgeTo == s.edgeTo && r.frontier == s.frontier)
  {
  }

  /**
   * The edges `es` relaxed one after the other, in order, as the loop over
   * `neighbors` does. No entry is lost.
   */
  function RelaxAll<V>(s: SearchState<V>, es: seq<WeightedEdge<V>>, g: AStarGraph<V>, end: V): (r: SearchState<V>)
    requires forall e :: e in es ==> e.from in s.distTo
    ensures s.distTo.Keys <= r.distTo.Keys
  {
    if es == [] then s
    else
      var init := es[..|es| - 1];
      assert forall e :: e in init ==> e in es;
      RelaxStep(RelaxAll(s, init, g, end), es[|es| - 1], g, end)
  }

  /**
   * One round of the search loop on values: `p` leaves the frontier, then
   * every edge out of `p` is relaxed.
   */
  ghost function Settle<V(!new)>(s: SearchState<V>, p: V, g: AStarGraph<V>, end: V): SearchState<V>
    requires WellFormed(g) && p in s.distTo
  {
    RelaxAll(SearchState(s.distTo, s.edgeTo, s.frontier - {p}, s.stamp, s.tick), Edges(g, p), g, end)
  }

  /**
   * The rounds of the search loop on values: `Settle` at each vertex of
   * `polls` in turn. A vertex without a cost is never polled (see
   * `PolledInOrder`); the fold skips it.
   */
  ghost function Run<V(!new)>(s: SearchState<V>, polls: seq<V>, g: AStarGraph<V>, end: V): SearchState<V>
    requires WellFormed(g)
  {
    if polls == [] then s
    else
      var m := Run(s, polls[..|polls| - 1], g, end);
      var p := polls[|polls| - 1];
      if p in m.distTo then Settle(m, p, g, end) else m
  }

  /** `p` is on `frontier` with a priority no greater than any other's. */
  ghost predicate LeastIn<V(!new)>(frontier: map<V, real>, p: V) {
    p in frontier && forall v :: v in frontier ==> frontier[p] <= frontier[v]
  }

  /**
   * `polls` is the order in which the loop polls from `s`: each vertex is
   * not `end` and has the least priority on the frontier the rounds before
   * it leave.
   */
  ghost predicate PolledInOrder<V(!new)>(s: SearchState<V>, polls: seq<V>, g: AStarGraph<V>, end: V)
    requires WellFormed(g)
  {
    forall i :: 0 <= i < |polls| ==> polls[i] != end && LeastIn(Run(s, polls[..i], g, end).frontier, polls[i])
  }

  /**
   * Polling a vertex of least priority other than `end` extends the run by
   * one `Settle` round, and the order of polls stays one the loop can make.
   */
  lemma RunExtend<V(!new)>(s: SearchState<V>, polls: seq<V>, p: V, g: AStarGraph<V>, end: V)
    requires WellFormed(g) && PolledInOrder(s, polls, g, end)
    requires p != end && LeastIn(Run(s, polls, g, end).frontier, p) && p in Run(s, polls, g, end).distTo
    ensures Run(s, polls + [p], g, end) == Settle(Run(s, polls, g, end), p, g, end)
    ensures PolledInOrder(s, polls + [p], g, end)
  {
    var q := polls + [p];
    assert q[..|polls|] == polls;
    forall i | 0 <= i < |q|
      ensures q[i] != end && LeastIn(Run(s, q[..i], g, end).frontier, q[i])
    {
      if i < |polls| {
        assert q[..i] == polls[..i];
      }
    }
  }

  // ---------------------------------------------------------------------
  // The search invariant
  // ---------------------------------------------------------------------

  /**
   * `u` comes strictly before `v` in the order in which the search settles
   * predecessors: cheaper, or as cheap and given its predecessor earlier.
   */
  ghost predicate Below<V>(distTo: map<V, Cost>, stamp: map<V, nat>, u: V, v: V) {
    && u in distTo && v in distTo && u in stamp && v in stamp
    && distTo[u].Finite? && distTo[v].Finite?
    && (|| distTo[u].value < distTo[v].value
        || (distTo[u].value == distTo[v].value && stamp[u] < stamp[v]))
  }

  /** `Below` is a strict order. */
  lemma BelowStrictOrder<V>(distTo: map<V, Cost>, stamp: map<V, nat>, u: V, v: V, w: V)
    ensures !Below(distTo, stamp, u, u)
    ensures Below(distTo, stamp, u, v) && Below(distTo, stamp, v, w) ==> Below(distTo, stamp, u, w)
  {
  }

  /** `start` is its own predecessor, at cost 0. */
  ghost predicate Rooted<V>(s: SearchState<V>, start: V) {
    && start in s.edgeTo && s.edgeTo[start] == start
    && start in s.distTo && s.distTo[start] == Finite(0.0)
  }

  /** No cost is negative. */
  ghost predicate NonNegative<V(!new)>(distTo: map<V, Cost>) {
    forall v :: v in distTo && distTo[v].Finite? ==> distTo[v].value >= 0.0
  }

  /**
   * The predecessor links form a tree rooted at `start`: the vertices with
   * a predecessor are exactly those with a finite cost, each has a stamp
   * older than `tick`, and apart from `start` every vertex lies strictly
   * above its predecessor in the `Below` order.
   */
  ghost predicate TreeShaped<V(!new)>(s: SearchState<V>, start: V) {
    && (forall v :: v in s.edgeTo ==>
          v in s.distTo && s.distTo[v].Finite? && v in s.stamp && s.stamp[v] < s.tick)
    && (forall v :: v in s.distTo && s.distTo[v].Finite? ==> v in s.edgeTo)
    && (forall v {:trigger s.edgeTo[v]} :: v in s.edgeTo && v != start ==> Below(s.distTo, s.stamp, s.edgeTo[v], v))
  }

  /** Every frontier vertex has a finite cost and a predecessor, and priority cost plus heuristic. */
  ghost predicate FrontierConsistent<V(!new)>(s: SearchState<V>, g: AStarGraph<V>, end: V) {
    && (forall v :: v in s.frontier ==> v in s.edgeTo && v in s.distTo && s.distTo[v].Finite?)
    && (forall v {:trigger s.frontier[v]} :: v in s.frontier ==>
          v in s.distTo && s.distTo[v].Finite? && s.frontier[v] == s.distTo[v].value + g.estimatedDistanceToGoal(v, end))
  }

  /**
   * Some edge of `g` out of `u` ends at `v`, and `v` costs at least `u`'s
   * cost plus that edge's weight.
   */
  ghost predicate LinkedBy<V>(s: SearchState<V>, g: AStarGraph<V>, u: V, v: V) {
    exists e :: e in Edges(g, u) && e.from == u && e.to == v && u in s.distTo && v in s.distTo
                && !Less(s.distTo[v], Plus(s.distTo[u], e.weight))
  }

  /** Every predecessor link other than `start`'s stands for an edge of `g`. */
  ghost predicate Linked<V(!new)>(s: SearchState<V>, g: AStarGraph<V>, start: V) {
    forall v {:trigger s.edgeTo[v]} :: v in s.edgeTo && v != start ==> LinkedBy(s, g, s.edgeTo[v], v)
  }

  /** Every edge of `es` has been relaxed out of `u`: its target costs no more than the way through it. */
  ghost predicate Relaxed<V>(s: SearchState<V>, u: V, es: seq<WeightedEdge<V>>) {
    && u in s.distTo
    && forall e :: e in es ==> e.to in s.distTo && !Less(Plus(s.distTo[u], e.weight), s.distTo[e.to])
  }

  /**
   * Every reached vertex that is off the frontier, apart from those in
   * `open`, has had all its outgoing edges relaxed.
   */
  ghost predicate ClosedExcept<V(!new)>(s: SearchState<V>, g: AStarGraph<V>, open: set<V>) {
    forall u :: u in s.edgeTo && u !in s.frontier && u !in open ==> Relaxed(s, u, Edges(g, u))
  }

  /**
   * Everything the search keeps true except the closure of polled
   * vertices; `end`, once reached, stays on the frontier, because the loop
   * stops before polling it.
   */
  ghost predicate SearchCore<V(!new)>(s: SearchState<V>, g: AStarGraph<V>, start: V, end: V) {
    && Rooted(s, start)
    && NonNegative(s.distTo)
    && TreeShaped(s, start)
    && FrontierConsistent(s, g, end)
    && Linked(s, g, start)
    && (end in s.edgeTo ==> end in s.frontier)
  }

  /** The invariant of the search loop. */
  ghost predicate SearchInv<V(!new)>(s: SearchState<V>, g: AStarGraph<V>, start: V, end: V) {
    SearchCore(s, g, start, end) && ClosedExcept(s, g, {})
  }

  /** The state right after `start` has been put on the frontier. */
  function InitialState<V>(g: AStarGraph<V>, start: V, end: V): SearchState<V> {
    SearchState(map[start := Finite(0.0)], map[start := start],
                map[start := g.estimatedDistanceToGoal(start, end)], map[start := 0], 1)
  }

  /** The initial state satisfies the search invariant, with only `start` on the frontier. */
  lemma InitialStateInv<V(!new)>(g: AStarGraph<V>, start: V, end: V)
    ensures SearchInv(InitialState(g, start, end), g, start, end)
    ensures InitialState(g, start, end).frontier.Keys == {start}
  {
  }

  /**
   * Relaxing an edge of `g` of non-negative weight out of a reached vertex
   * keeps the invariant, and leaves every vertex that was relaxed and
   * stays off the frontier relaxed.
   */
  lemma RelaxKeepsInvariant<V(!new)>(s: SearchState<V>, e: WeightedEdge<V>, g: AStarGraph<V>, start: V, end: V, open: set<V>)
    requires SearchCore(s, g, start, end) && ClosedExcept(s, g, open)
    requires e.from in s.edgeTo && e in Edges(g, e.from) && e.weight >= 0.0
    ensures SearchCore(RelaxStep(s, e, g, end), g, start, end)
    ensures ClosedExcept(RelaxStep(s, e, g, end), g, open)
  {
    RelaxKeepsTree(s, e, g, start, end);
    RelaxKeepsFrontier(s, e, g, end);
    RelaxKeepsLinks(s, e, g, start, end);
    RelaxKeepsClosed(s, e, g, end, open);
  }

  /** Relaxation keeps `start` the root at cost 0, costs non-negative and the links a tree. */
  lemma RelaxKeepsTree<V(!new)>(s: SearchState<V>, e: WeightedEdge<V>, g: AStarGraph<V>, start: V, end: V)
    requires Rooted(s, start) && NonNegative(s.distTo) && TreeShaped(s, start)
    requires e.from in s.edgeTo && e.weight >= 0.0
    ensures var r := RelaxStep(s, e, g, end);
      Rooted(r, start) && NonNegative(r.distTo) && TreeShaped(r, start)
  {
    var r := RelaxStep(s, e, g, end);
    var p, q := e.from, e.to;
    if Improves(s, e) {
      var cand := Plus(s.distTo[p], e.weight);
      assert q != start && p != q;
      assert r.distTo == s.distTo[q := cand];
      assert r.edgeTo == s.edgeTo[q := p];
      assert r.stamp == s.stamp[q := s.tick];
      forall v | v in r.edgeTo && v != start
        ensures Below(r.distTo, r.stamp, r.edgeTo[v], v)
      {
        if v == q {
          assert r.edgeTo[v] == p;
        } else if s.edgeTo[v] == q {
          assert Below(s.distTo, s.stamp, s.edgeTo[v], v);
        } else {
          assert Below(s.distTo, s.stamp, s.edgeTo[v], v);
        }
      }
    } else {
      assert r.edgeTo == s.edgeTo && r.stamp == s.stamp && r.tick == s.tick;
      assert forall v :: v in s.distTo ==> r.distTo[v] == s.distTo[v];
      forall v | v in r.edgeTo && v != start
        ensures Below(r.distTo, r.stamp, r.edgeTo[v], v)
      {
        assert Below(s.distTo, s.stamp, s.edgeTo[v], v);
      }
    }
  }

  /** Relaxation keeps every frontier priority equal to cost plus heuristic, and a reached `end` queued. */
  lemma RelaxKeepsFrontier<V(!new)>(s: SearchState<V>, e: WeightedEdge<V>, g: AStarGraph<V>, end: V)
    requires FrontierConsistent(s, g, end) && (end in s.edgeTo ==> end in s.frontier)
    requires e.from in s.edgeTo && e.from in s.distTo
    ensures var r := RelaxStep(s, e, g, end);
      FrontierConsistent(r, g, end) && (end in r.edgeTo ==> end in r.frontier)
  {
    var r := RelaxStep(s, e, g, end);
    var q := e.to;
    if Improves(s, e) {
      forall v | v in r.frontier
        ensures v in r.edgeTo && v in r.distTo && r.distTo[v].Finite?
        ensures r.frontier[v] == r.distTo[v].value + g.estimatedDistanceToGoal(v, end)
      {
        if v != q {
          assert r.frontier[v] == s.frontier[v] && r.distTo[v] == s.distTo[v];
        }
      }
    } else {
      assert forall v :: v in s.distTo ==> r.distTo[v] == s.distTo[v];
    }
  }

  /**
   * Relaxation keeps every predecessor link backed by an edge of `g`: the
   * improved target is linked by the relaxed edge itself, and elsewhere a
   * cost can only have dropped on the predecessor's side.
   */
  lemma RelaxKeepsLinks<V(!new)>(s: SearchState<V>, e: WeightedEdge<V>, g: AStarGraph<V>, start: V, end: V)
    requires Linked(s, g, start) && TreeShaped(s, start)
    requires e.from in s.distTo && e in Edges(g, e.from) && e.weight >= 0.0
    ensures Linked(RelaxStep(s, e, g, end), g, start)
  {
    var r := RelaxStep(s, e, g, end);
    RelaxStepEffect(s, e, g, end);
    forall v | v in r.edgeTo && v != start
      ensures LinkedBy(r, g, r.edgeTo[v], v)
    {
      if Improves(s, e) && v == e.to {
        assert r.edgeTo[v] == e.from;
        assert r.distTo[v] == Plus(r.distTo[e.from], e.weight) by {
          if e.from == e.to {
            assert false;
          }
        }
      } else {
        var u := s.edgeTo[v];
        assert r.edgeTo[v] == u;
        assert LinkedBy(s, g, u, v);
        var x :| x in Edges(g, u) && x.from == u && x.to == v && u in s.distTo && v in s.distTo
                 && !Less(s.distTo[v], Plus(s.distTo[u], x.weight));
        assert r.distTo[v] == s.distTo[v];
        assert !Less(r.distTo[v], Plus(r.distTo[u], x.weight));
      }
    }
  }

  /**
   * Relaxation never undoes an earlier relaxation: a vertex that stays off
   * the frontier keeps its cost, and targets only get cheaper.
   */
  lemma RelaxKeepsClosed<V(!new)>(s: SearchState<V>, e: WeightedEdge<V>, g: AStarGraph<V>, end: V, open: set<V>)
    requires ClosedExcept(s, g, open) && e.from in s.distTo
    ensures ClosedExcept(RelaxStep(s, e, g, end), g, open)
  {
    var r := RelaxStep(s, e, g, end);
    RelaxStepEffect(s, e, g, end);
    forall u | u in r.edgeTo && u !in r.frontier && u !in open
      ensures Relaxed(r, u, Edges(g, u))
    {
      assert u in s.edgeTo && u !in s.frontier;
      assert Relaxed(s, u, Edges(g, u));
      assert r.distTo[u] == s.distTo[u];
    }
  }

  /**
   * Taking a vertex other than `end` off the frontier keeps everything but
   * the closure of that vertex, whose edges are still to be relaxed.
   */
  lemma PollKeepsInvariant<V(!new)>(s: SearchState<V>, v: V, rest: map<V, real>, g: AStarGraph<V>, start: V, end: V)
    requires SearchInv(s, g, start, end)
    requires rest == s.frontier - {v} && v != end
    ensures SearchCore(SearchState(s.distTo, s.edgeTo, rest, s.stamp, s.tick), g, start, end)
    ensures ClosedExcept(SearchState(s.distTo, s.edgeTo, rest, s.stamp, s.tick), g, {v})
  {
  }

  /**
   * Relaxing, in order, edges of the graph out of a reached vertex keeps
   * the invariant, and no vertex loses its predecessor.
   */
  lemma {:induction false} RelaxAllKeepsInvariant<V(!new)>(s: SearchState<V>, p: V, es: seq<WeightedEdge<V>>,
                                                           g: AStarGraph<V>, start: V, end: V, open: set<V>)
    requires WellFormed(g)
    requires SearchCore(s, g, start, end) && ClosedExcept(s, g, open)
    requires p in s.edgeTo
    requires forall e :: e in es ==> e in Edges(g, p)
    ensures forall e :: e in es ==> e.from in s.distTo
    ensures var r := RelaxAll(s, es, g, end);
      SearchCore(r, g, start, end) && ClosedExcept(r, g, open) && s.edgeTo.Keys <= r.edgeTo.Keys
  {
    if es != [] {
      var init, e := es[..|es| - 1], es[|es| - 1];
      assert forall x :: x in init ==> x in es;
      RelaxAllKeepsInvariant(s, p, init, g, start, end, open);
      var m := RelaxAll(s, init, g, end);
      assert e in Edges(g, p);
      RelaxKeepsInvariant(m, e, g, start, end, open);
    }
  }

  /**
   * Relaxing, in order, edges out of `p`, which is off the frontier at a
   * finite cost, leaves `p` off the frontier at that cost, leaves every one
   * of those edges relaxed, and raises no cost.
   */
  lemma {:induction false} RelaxAllSettles<V(!new)>(s: SearchState<V>, p: V, es: seq<WeightedEdge<V>>, g: AStarGraph<V>, end: V)
    requires WellFormed(g)
    requires p in s.distTo && s.distTo[p].Finite? && p !in s.frontier
    requires forall e :: e in es ==> e in Edges(g, p)
    ensures forall e :: e in es ==> e.from in s.distTo
    ensures var r := RelaxAll(s, es, g, end);
      && p !in r.frontier && r.distTo[p] == s.distTo[p]
      && Relaxed(r, p, es)
      && NoIncrease(s.distTo, r.distTo)
  {
    if es != [] {
      var init, e := es[..|es| - 1], es[|es| - 1];
      assert forall x :: x in init ==> x in es;
      RelaxAllSettles(s, p, init, g, end);
      var m := RelaxAll(s, init, g, end);
      var r := RelaxStep(m, e, g, end);
      assert e in Edges(g, p);
      RelaxStepEffect(m, e, g, end);
      assert r.distTo[p] == m.distTo[p] && p !in r.frontier by {
        if e.to == p {
          assert !Improves(m, e);
        }
      }
      forall x | x in es
        ensures x.to in r.distTo && !Less(Plus(r.distTo[p], x.weight), r.distTo[x.to])
      {
        if x != e {
          assert x in init;
          assert Relaxed(m, p, init);
        }
      }
      NoIncreaseTransitive(s.distTo, m.distTo, r.distTo);
    }
  }

  /**
   * One round of the loop keeps the invariant: polling a frontier vertex
   * other than `end` and relaxing all its edges closes it. No cost goes up.
   */
  lemma SettleKeepsInvariant<V(!new)>(s: SearchState<V>, p: V, g: AStarGraph<V>, start: V, end: V)
    requires WellFormed(g) && SearchInv(s, g, start, end)
    requires p in s.frontier && p != end
    ensures p in s.distTo
    ensures SearchInv(Settle(s, p, g, end), g, start, end)
    ensures NoIncrease(s.distTo, Settle(s, p, g, end).distTo)
  {
    var s1 := SearchState(s.distTo, s.edgeTo, s.frontier - {p}, s.stamp, s.tick);
    PollKeepsInvariant(s, p, s1.frontier, g, start, end);
    RelaxAllKeepsInvariant(s1, p, Edges(g, p), g, start, end, {p});
    RelaxAllSettles(s1, p, Edges(g, p), g, end);
    var r := Settle(s, p, g, end);
    forall u | u in r.edgeTo && u !in r.frontier
      ensures Relaxed(r, u, Edges(g, u))
    {
    }
  }

  /** No entry of `before` is missing from `after` or cheaper than it. */
  ghost predicate NoIncrease<V(!new)>(before: map<V, Cost>, after: map<V, Cost>) {
    forall v :: v in before ==> v in after && !Less(before[v], after[v])
  }

  /** `NoIncrease` is transitive. */
  lemma NoIncreaseTransitive<V(!new)>(a: map<V, Cost>, b: map<V, Cost>, c: map<V, Cost>)
    requires NoIncrease(a, b) && NoIncrease(b, c)
    ensures NoIncrease(a, c)
  {
  }

  // ---------------------------------------------------------------------
  // Paths
  // ---------------------------------------------------------------------

  /**
   * `path` lists the vertices after `from` on the `edgeTo` chain that ends
   * at `to`: empty exactly when `from == to`; otherwise it ends at `to`,
   * each element's predecessor is the one before it (`from` for the first),
   * and `from` does not occur in it.
   */
  ghost predicate IsPath<V>(path: seq<V>, from: V, to: V, edgeTo: map<V, V>) {
    && (path == [] <==> from == to)
    && (path != [] ==> path[|path| - 1] == to && path[0] in edgeTo && edgeTo[path[0]] == from)
    && (forall i :: 0 < i < |path| ==> path[i] in edgeTo && edgeTo[path[i]] == path[i - 1])
    && from !in path
  }

  /** A path from `u` grows to a path from `u`'s predecessor `v`. */
  lemma PathExtend<V>(path: seq<V>, u: V, v: V, to: V, edgeTo: map<V, V>)
    requires IsPath(path, u, to, edgeTo)
    requires u in edgeTo && edgeTo[u] == v
    requires v != to && v != u && v !in path
    ensures IsPath([u] + path, v, to, edgeTo)
  {
    var p := [u] + path;
    forall i | 0 < i < |p|
      ensures p[i] in edgeTo && edgeTo[p[i]] == p[i - 1]
    {
      assert p[i] == path[i - 1];
      if i == 1 {
        assert p[0] == u;
      } else {
        assert p[i - 1] == path[i - 2];
      }
    }
    assert path != [] ==> p[|p| - 1] == path[|path| - 1];
  }

  /** Dropping the last vertex of a path gives the path to that vertex's predecessor. */
  lemma PathShorten<V>(path: seq<V>, from: V, to: V, edgeTo: map<V, V>)
    requires IsPath(path, from, to, edgeTo) && path != []
    ensures to in edgeTo
    ensures IsPath(path[..|path| - 1], from, edgeTo[to], edgeTo)
  {
    var n := |path|;
    if n > 1 {
      assert edgeTo[to] == path[n - 2];
      assert path[n - 2] in path;
    }
  }

  /** An element of a sequence at an index in range belongs to it. */
  lemma ElementOf<V>(s: seq<V>, i: int)
    ensures 0 <= i < |s| ==> s[i] in s
  {
  }

  /**
   * There is at most one path between two vertices: read backwards from
   * `to`, every element is the predecessor of the next, and the walk must
   * stop exactly where it reaches `from`.
   */
  lemma PathUnique<V>(a: seq<V>, b: seq<V>, from: V, to: V, edgeTo: map<V, V>)
    requires IsPath(a, from, to, edgeTo) && IsPath(b, from, to, edgeTo)
    requires |a| <= |b|
    ensures a == b
  {
    if a != [] {
      var d := |b| - |a|;
      // the last k elements agree
      var k := 1;
      while k < |a|
        invariant 1 <= k <= |a|
        invariant forall j :: |a| - k <= j < |a| ==> a[j] == b[j + d]
      {
        var j := |a| - k;
        assert a[j - 1] == edgeTo[a[j]] == edgeTo[b[j + d]] == b[j - 1 + d];
        k := k + 1;
      }
      assert a[0] == b[d];
      ElementOf(b, d - 1);
      assert d == 0;
    }
  }

  /** The vertices with a predecessor that lie `Below` `v`. */
  ghost function BelowSet<V>(s: SearchState<V>, v: V): set<V> {
    set u | u in s.edgeTo && Below(s.distTo, s.stamp, u, v)
  }

  /**
   * One step of the walk back from the goal: from a vertex other than
   * `start`, the predecessor has a predecessor too, the path grows by one
   * vertex, and fewer vertices lie below the predecessor than below the
   * vertex, so the walk ends.
   */
  lemma WalkStep<V(!new)>(s: SearchState<V>, start: V, goal: V, target: V, path: seq<V>)
    requires TreeShaped(s, start)
    requires goal in s.edgeTo && goal != start
    requires IsPath(path, goal, target, s.edgeTo)
    requires forall x :: x in path ==> Below(s.distTo, s.stamp, goal, x)
    ensures s.edgeTo[goal] in s.edgeTo
    ensures IsPath([goal] + path, s.edgeTo[goal], target, s.edgeTo)
    ensures forall x :: x in [goal] + path ==> Below(s.distTo, s.stamp, s.edgeTo[goal], x)
    ensures |BelowSet(s, s.edgeTo[goal])| < |BelowSet(s, goal)|
  {
    var next := s.edgeTo[goal];
    assert Below(s.distTo, s.stamp, next, goal);
    forall x | x in [goal] + path
      ensures Below(s.distTo, s.stamp, next, x)
    {
      BelowStrictOrder(s.distTo, s.stamp, next, goal, x);
    }
    BelowStrictOrder(s.distTo, s.stamp, next, next, next);
    assert path != [] ==> path[|path| - 1] in path;
    PathExtend(path, goal, next, target, s.edgeTo);
    var a, b := BelowSet(s, next), BelowSet(s, goal);
    forall u | u in a
      ensures u in b
    {
      BelowStrictOrder(s.distTo, s.stamp, u, next, goal);
    }
    assert next in b - a;
    assert b == a + (b - a);
  }

  /** The elements of `s` in the opposite order. */
  function Reverse<V>(s: seq<V>): (r: seq<V>)
    ensures |r| == |s|
    ensures forall i :: 0 <= i < |s| ==> r[i] == s[|s| - 1 - i]
  {
    if s == [] then [] else [s[|s| - 1]] + Reverse(s[..|s| - 1])
  }

  /** Appending then reversing puts the new element first. */
  lemma ReverseSnoc<V>(s: seq<V>, x: V)
    ensures Reverse(s + [x]) == [x] + Reverse(s)
  {
    var r, t := Reverse(s + [x]), [x] + Reverse(s);
    forall i | 0 < i < |r|
      ensures r[i] == t[i]
    {
      assert (s + [x])[|s| - i] == s[|s| - i];
    }
  }

  /**
   * Under the invariant, the `edgeTo` chain from `start` to a reached
   * vertex `t` is a walk of the graph whose weight is at most `t`'s cost:
   * each link stands for an edge, and a cost only drops after a link to it
   * is made.
   */
  lemma {:induction false} PathIsRoute<V(!new)>(s: SearchState<V>, g: AStarGraph<V>, start: V, t: V, path: seq<V>)
      returns (es: seq<WeightedEdge<V>>)
    requires Rooted(s, start) && TreeShaped(s, start) && Linked(s, g, start)
    requires IsPath(path, start, t, s.edgeTo) && t in s.edgeTo
    ensures IsRoute(g, es, start, path)
    ensures t in s.distTo && s.distTo[t].Finite? && Weight(es) <= s.distTo[t].value
  {
    if path == [] {
      es := [];
    } else {
      var n := |path|;
      PathShorten(path, start, t, s.edgeTo);
      var u := s.edgeTo[t];
      var init := PathIsRoute(s, g, start, u, path[..n - 1]);
      assert t != start && LinkedBy(s, g, u, t);
      var e :| e in Edges(g, u) && e.from == u && e.to == t && u in s.distTo && t in s.distTo
               && !Less(s.distTo[t], Plus(s.distTo[u], e.weight));
      es := init + [e];
      assert es[..n - 1] == init;
      forall i | 0 <= i < n
        ensures es[i].from == (if i == 0 then start else path[i - 1])
        ensures es[i] in Edges(g, es[i].from) && es[i].to == path[i]
      {
        if i < n - 1 {
          assert es[i] == init[i] && path[..n - 1][i] == path[i];
          assert init[i].from == (if i == 0 then start else path[..n - 1][i - 1]);
          if i > 0 {
            assert path[..n - 1][i - 1] == path[i - 1];
          }
        } else if n > 1 {
          assert u == path[n - 2];
        } else {
          assert path[0] == t && u == start;
        }
      }
    }
  }

  /**
   * With the frontier empty, every vertex on a walk of the graph from
   * `start` has been reached: `start` has, and each edge out of a reached
   * vertex has been relaxed.
   */
  lemma {:induction false} RouteReached<V(!new)>(s: SearchState<V>, g: AStarGraph<V>, start: V,
                                                 es: seq<WeightedEdge<V>>, vs: seq<V>)
    requires Rooted(s, start) && TreeShaped(s, start) && ClosedExcept(s, g, {}) && s.frontier == map[]
    requires IsRoute(g, es, start, vs)
    ensures forall i :: 0 <= i < |vs| ==> vs[i] in s.edgeTo
  {
    if vs != [] {
      var n := |vs| - 1;
      assert |es| == |vs|;
      assert IsRoute(g, es[..n], start, vs[..n]) by {
        forall i | 0 <= i < n
          ensures es[..n][i].from == (if i == 0 then start else vs[..n][i - 1])
        {
          RouteEdge(g, es, start, vs, i);
          assert es[..n][i] == es[i];
          if i > 0 {
            assert vs[..n][i - 1] == vs[i - 1];
          }
        }
      }
      RouteReached(s, g, start, es[..n], vs[..n]);
      var u := es[n].from;
      assert u in s.edgeTo by {
        RouteEdge(g, es, start, vs, n);
        if n > 0 {
          assert vs[..n][n - 1] in s.edgeTo;
        }
      }
      assert Relaxed(s, u, Edges(g, u));
      assert forall i :: 0 <= i < n ==> vs[i] == vs[..n][i];
    }
  }

  // ---------------------------------------------------------------------
  // The classification of a finished search
  // ---------------------------------------------------------------------

  /**
   * What the accessors promise about a finished search: TIMEOUT exactly
   * when the final stopwatch reading reached the timeout; UNSOLVABLE only
   * with an empty frontier and time left; SOLVED only when `end` had the
   * least priority on the frontier, with `end`'s cost as the weight and the
   * `edgeTo` chain from `start` to `end` as the path; otherwise an empty
   * path and weight 0.
   */
  ghost predicate Classification<V(!new)>(outcome: SolverOutcome, timeSpent: real, solutionWeight: real, solution: seq<V>,
                                          timeout: real, frontier: map<V, real>, distTo: map<V, Cost>, edgeTo: map<V, V>,
                                          start: V, end: V) {
    && (outcome == Timeout <==> timeout <= timeSpent)
    && (outcome == Unsolvable ==> frontier == map[] && timeSpent < timeout)
    && (outcome == Solved ==>
          && end in frontier
          && (forall v :: v in frontier ==> frontier[end] <= frontier[v])
          && end in distTo && distTo[end] == Finite(solutionWeight)
          && IsPath(solution, start, end, edgeTo))
    && (outcome != Solved ==> solution == [] && solutionWeight == 0.0)
    && solutionWeight >= 0.0
  }

  /**
   * The three ways a search ends are classified correctly: at or past the
   * timeout it timed out, otherwise with an empty frontier it is
   * unsolvable, and otherwise `end` heads the frontier, and its cost and
   * path make a solution.
   */
  lemma ClassificationHolds<V(!new)>(s: SearchState<V>, g: AStarGraph<V>, start: V, end: V, timeout: real, t: real,
                                     outcome: SolverOutcome, w: real, path: seq<V>)
    requires SearchInv(s, g, start, end)
    requires timeout <= t || s.frontier == map[] || (end in s.frontier && forall v :: v in s.frontier ==> s.frontier[end] <= s.frontier[v])
    requires outcome == (if timeout <= t then Timeout else if s.frontier == map[] then Unsolvable else Solved)
    requires outcome != Solved ==> path == [] && w == 0.0
    requires outcome == Solved ==> end in s.distTo && s.distTo[end].Finite? && w == s.distTo[end].value && IsPath(path, start, end, s.edgeTo)
    ensures Classification(outcome, t, w, path, timeout, s.frontier, s.distTo, s.edgeTo, start, end)
  {
  }

  /**
   * On SOLVED, `start` followed by the solution is a walk of the graph
   * whose edges weigh at most the solution weight in all.
   */
  lemma SolvedIsRoute<V(!new)>(outcome: SolverOutcome, timeSpent: real, w: real, solution: seq<V>, timeout: real,
                               s: SearchState<V>, g: AStarGraph<V>, start: V, end: V)
    requires Classification(outcome, timeSpent, w, solution, timeout, s.frontier, s.distTo, s.edgeTo, start, end)
    requires SearchInv(s, g, start, end)
    ensures outcome == Solved ==> exists es :: IsRoute(g, es, start, solution) && Weight(es) <= w
  {
    if outcome == Solved {
      var es := PathIsRoute(s, g, start, end, solution);
    }
  }

  /**
   * UNSOLVABLE is reported exactly when time was left and `end` cannot be
   * reached from `start` along edges of the graph.
   */
  lemma UnsolvableExactly<V(!new)>(outcome: SolverOutcome, timeSpent: real, w: real, solution: seq<V>, timeout: real,
                                   s: SearchState<V>, g: AStarGraph<V>, start: V, end: V)
    requires Classification(outcome, timeSpent, w, solution, timeout, s.frontier, s.distTo, s.edgeTo, start, end)
    requires SearchInv(s, g, start, end)
    ensures outcome == Unsolvable <==> timeSpent < timeout && !Reaches(g, start, end)
  {
    if outcome == Unsolvable {
      assert end !in s.edgeTo;
      forall es, vs | IsRoute(g, es, start, vs) && vs != []
        ensures vs[|vs| - 1] != end
      {
        RouteReached(s, g, start, es, vs);
      }
    } else if outcome == Solved && start != end {
      var es := PathIsRoute(s, g, start, end, solution);
      assert IsRoute(g, es, start, solution) && solution != [] && solution[|solution| - 1] == end;
    }
  }

  /** The last vertex of the walk from `from` through `vs`. */
  function Last<V>(from: V, vs: seq<V>): V {
    if vs == [] then from else vs[|vs| - 1]
  }

  /**
   * The heuristic never overestimates the way to `end`: it is never
   * negative, and from any vertex it is at most the weight of every walk of
   * `g` from that vertex to `end`.
   */
  ghost predicate Admissible<V(!new)>(g: AStarGraph<V>, end: V) {
    && (forall v :: g.estimatedDistanceToGoal(v, end) >= 0.0)
    && (forall v, es, vs :: IsRoute(g, es, v, vs) && vs != [] && vs[|vs| - 1] == end ==>
          g.estimatedDistanceToGoal(v, end) <= Weight(es))
  }

  /** No walk of `g` from `start` to `end` weighs less than `w`. */
  ghost predicate Shortest<V(!new)>(g: AStarGraph<V>, start: V, end: V, w: real) {
    forall es, vs :: IsRoute(g, es, start, vs) && Last(start, vs) == end ==> w <= Weight(es)
  }

  /** The part of a walk after its `i`-th vertex is a walk from that vertex. */
  lemma RouteSuffix<V>(g: AStarGraph<V>, es: seq<WeightedEdge<V>>, from: V, vs: seq<V>, i: int)
    requires IsRoute(g, es, from, vs) && 0 <= i <= |vs|
    ensures IsRoute(g, es[i..], if i == 0 then from else vs[i - 1], vs[i..])
  {
    var u := if i == 0 then from else vs[i - 1];
    forall j | 0 <= j < |es| - i
      ensures es[i..][j].from == (if j == 0 then u else vs[i..][j - 1])
      ensures es[i..][j] in Edges(g, es[i..][j].from) && es[i..][j].to == vs[i..][j]
    {
      RouteEdge(g, es, from, vs, i + j);
    }
  }

  /** The weight of two walks joined is the sum of their weights. */
  lemma {:induction false} WeightAppend<V>(a: seq<WeightedEdge<V>>, b: seq<WeightedEdge<V>>)
    ensures Weight(a + b) == Weight(a) + Weight(b)
  {
    if b == [] {
      assert a + b == a;
    } else {
      var c := b[..|b| - 1];
      assert (a + b)[..|a + b| - 1] == a + c;
      WeightAppend(a, c);
    }
  }

  /**
   * One step along a walk through closed vertices: when the vertex before
   * `vs[i]` is reached, off the frontier and costs at most the first `i`
   * edges, `vs[i]` is reached and costs at most the first `i + 1` edges.
   */
  lemma ClosedStep<V(!new)>(s: SearchState<V>, g: AStarGraph<V>, start: V, es: seq<WeightedEdge<V>>, vs: seq<V>, i: nat)
    requires TreeShaped(s, start) && ClosedExcept(s, g, {})
    requires IsRoute(g, es, start, vs) && i < |vs|
    requires var u := if i == 0 then start else vs[i - 1];
      u in s.edgeTo && u !in s.frontier && s.distTo[u].Finite? && s.distTo[u].value <= Weight(es[..i])
    ensures vs[i] in s.edgeTo && s.distTo[vs[i]].Finite? && s.distTo[vs[i]].value <= Weight(es[..i + 1])
  {
    var u := if i == 0 then start else vs[i - 1];
    RouteEdge(g, es, start, vs, i);
    assert Relaxed(s, u, Edges(g, u));
    assert es[..i + 1][..i] == es[..i];
  }

  /**
   * Following a walk from `start` to a vertex on the frontier, the first
   * vertex on the frontier is reached at index `i`, and it costs at most
   * the first `i` edges: every vertex before it is reached and closed.
   */
  lemma {:induction false} FirstOnFrontier<V(!new)>(s: SearchState<V>, g: AStarGraph<V>, start: V, end: V,
                                                    es: seq<WeightedEdge<V>>, vs: seq<V>) returns (i: nat)
    requires Rooted(s, start) && TreeShaped(s, start) && ClosedExcept(s, g, {})
    requires IsRoute(g, es, start, vs) && Last(start, vs) in s.frontier
    ensures i <= |vs|
    ensures var u := if i == 0 then start else vs[i - 1];
      u in s.frontier && u in s.distTo && s.distTo[u].Finite? && s.distTo[u].value <= Weight(es[..i])
  {
    i := 0;
    var u := start;
    while u !in s.frontier
      invariant 0 <= i <= |vs| && u == (if i == 0 then start else vs[i - 1])
      invariant u in s.edgeTo && s.distTo[u].Finite? && s.distTo[u].value <= Weight(es[..i])
      decreases |vs| - i
    {
      assert i < |vs|;
      ClosedStep(s, g, start, es, vs, i);
      i, u := i + 1, vs[i];
    }
  }

  /**
   * With `end` of least priority on the frontier and an admissible
   * heuristic, `end`'s cost is at most the weight of any walk from `start`
   * to `end`. Along the walk, every vertex before the first one on the
   * frontier is reached and closed, so it costs at most the walk up to it;
   * that frontier vertex's priority is at most the whole walk's weight and
   * at least `end`'s priority, which is at least `end`'s cost.
   */
  lemma HeadIsShortest<V(!new)>(s: SearchState<V>, g: AStarGraph<V>, start: V, end: V,
                                es: seq<WeightedEdge<V>>, vs: seq<V>)
    requires SearchInv(s, g, start, end) && LeastIn(s.frontier, end)
    requires Admissible(g, end)
    requires IsRoute(g, es, start, vs) && Last(start, vs) == end
    ensures end in s.distTo && s.distTo[end].Finite?
    ensures s.distTo[end].value <= Weight(es)
  {
    var i := FirstOnFrontier(s, g, start, end, es, vs);
    var u := if i == 0 then start else vs[i - 1];
    WeightSplit(es, i);
    RestBound(g, start, end, es, vs, i);
    FrontierBound(s, g, end, u, Weight(es[..i]), Weight(es[i..]));
  }

  /**
   * The end of that argument: when a vertex `u` on the frontier costs at
   * most `prefix`, and its heuristic is at most `rest` (or it is `end`
   * with nothing left to go), `end` costs at most `prefix + rest`.
   */
  lemma FrontierBound<V(!new)>(s: SearchState<V>, g: AStarGraph<V>, end: V, u: V, prefix: real, rest: real)
    requires FrontierConsistent(s, g, end) && LeastIn(s.frontier, end)
    requires u in s.frontier && s.distTo[u].Finite? && s.distTo[u].value <= prefix
    requires g.estimatedDistanceToGoal(u, end) <= rest || (u == end && rest == 0.0)
    requires g.estimatedDistanceToGoal(end, end) >= 0.0
    ensures end in s.distTo && s.distTo[end].Finite?
    ensures s.distTo[end].value <= prefix + rest
  {
    assert s.frontier[end] <= s.frontier[u];
  }

  /**
   * The heuristic at the `i`-th vertex of a walk to `end` is at most the
   * weight of the rest of the walk, unless the walk is over there. At `end`
   * itself the heuristic is never negative.
   */
  lemma RestBound<V(!new)>(g: AStarGraph<V>, start: V, end: V, es: seq<WeightedEdge<V>>, vs: seq<V>, i: nat)
    requires Admissible(g, end)
    requires IsRoute(g, es, start, vs) && Last(start, vs) == end && i <= |vs|
    ensures var u := if i == 0 then start else vs[i - 1];
      g.estimatedDistanceToGoal(u, end) <= Weight(es[i..]) || (u == end && Weight(es[i..]) == 0.0)
    ensures g.estimatedDistanceToGoal(end, end) >= 0.0
  {
    if i < |vs| {
      RouteSuffix(g, es, start, vs, i);
      assert vs[i..][|vs[i..]| - 1] == end;
    } else {
      assert es[i..] == [];
    }
  }

  /** A walk weighs its first `i` edges plus the rest. */
  lemma WeightSplit<V>(es: seq<WeightedEdge<V>>, i: nat)
    requires i <= |es|
    ensures Weight(es) == Weight(es[..i]) + Weight(es[i..])
  {
    assert es[..i] + es[i..] == es;
    WeightAppend(es[..i], es[i..]);
  }

  /**
   * On SOLVED with an admissible heuristic, no walk from `start` to `end`
   * weighs less than the solution weight, and `start` followed by the
   * solution is a walk weighing exactly that.
   */
  lemma SolvedIsShortest<V(!new)>(outcome: SolverOutcome, timeSpent: real, w: real, solution: seq<V>, timeout: real,
                                  s: SearchState<V>, g: AStarGraph<V>, start: V, end: V)
    requires Classification(outcome, timeSpent, w, solution, timeout, s.frontier, s.distTo, s.edgeTo, start, end)
    requires SearchInv(s, g, start, end)
    ensures outcome == Solved && Admissible(g, end) ==> Shortest(g, start, end, w)
    ensures outcome == Solved && Admissible(g, end) ==> exists es :: IsRoute(g, es, start, solution) && Weight(es) == w
  {
    if outcome == Solved && Admissible(g, end) {
      assert LeastIn(s.frontier, end);
      forall es, vs | IsRoute(g, es, start, vs) && Last(start, vs) == end
        ensures w <= Weight(es)
      {
        HeadIsShortest(s, g, start, end, es, vs);
      }
      var es := PathIsRoute(s, g, start, end, solution);
      assert Last(start, solution) == end;
      HeadIsShortest(s, g, start, end, es, solution);
    }
  }

  /** Stopwatch readings never go backwards. */
  ghost predicate Monotone(clock: seq<real>) {
    forall i, j :: 0 <= i <= j < |clock| ==> clock[i] <= clock[j]
  }

  /** On a clock that never goes back, a reading below `timeout` follows only readings below it. */
  lemma ReadingsBelow(clock: seq<real>, n: nat, timeout: real)
    requires Monotone(clock) && n <= |clock|
    requires n > 0 ==> clock[n - 1] < timeout
    ensures forall j :: 0 <= j < n ==> clock[j] < timeout
  {
    forall j | 0 <= j < n
      ensures clock[j] < timeout
    {
      assert clock[j] <= clock[n - 1];
    }
  }

  /**
   * The search loop started from `start` and polled `explored`, in order,
   * each vertex being of least priority and not `end`; its rounds left
   * exactly the costs `distTo`, the links `edgeTo` and the frontier
   * `frontier`.
   */
  ghost predicate Searched<V(!new)>(g: AStarGraph<V>, start: V, end: V, explored: seq<V>,
                                    frontier: map<V, real>, distTo: map<V, Cost>, edgeTo: map<V, V>) {
    && WellFormed(g)
    && PolledInOrder(InitialState(g, start, end), explored, g, end)
    && var r := Run(InitialState(g, start, end), explored, g, end);
       r.distTo == distTo && r.edgeTo == edgeTo && r.frontier == frontier
  }

  /** A state the rounds over `polls` reach from the initial state, polled in order, is `Searched`. */
  lemma SearchedBy<V(!new)>(s: SearchState<V>, g: AStarGraph<V>, start: V, end: V, polls: seq<V>)
    requires WellFormed(g)
    requires s == Run(InitialState(g, start, end), polls, g, end)
    requires PolledInOrder(InitialState(g, start, end), polls, g, end)
    ensures Searched(g, start, end, polls, s.frontier, s.distTo, s.edgeTo)
  {
  }

  /**
   * A finished run: it is classified as `Classification` says; on SOLVED,
   * `start` followed by the solution is a walk of the graph weighing at
   * most the solution weight, and with an admissible heuristic exactly
   * that weight, which no walk from `start` to `end` undercuts; UNSOLVABLE
   * exactly when time was left and `end` cannot be reached; the maps and
   * the frontier are what the loop's rounds over `explored` left, and the
   * count of states explored is the number of those polls, which start
   * with `start` and never take `end`; each poll followed a reading below
   * `timeout`, and `timeSpent`
   * is the reading after the last of them when the loop stopped on an
   * empty frontier or on `end` at its head, or the one after a further
   * reading at or above `timeout`.
   */
  ghost predicate Concluded<V(!new)>(g: AStarGraph<V>, start: V, end: V, timeout: real, clock: seq<real>,
                                     outcome: SolverOutcome, timeSpent: real, solutionWeight: real, solution: seq<V>,
                                     frontier: map<V, real>, distTo: map<V, Cost>, edgeTo: map<V, V>,
                                     count: nat, explored: seq<V>, readings: nat) {
    && Classification(outcome, timeSpent, solutionWeight, solution, timeout, frontier, distTo, edgeTo, start, end)
    && (outcome == Solved ==> exists es :: IsRoute(g, es, start, solution) && Weight(es) <= solutionWeight)
    && (outcome == Solved && Admissible(g, end) ==>
          && Shortest(g, start, end, solutionWeight)
          && exists es :: IsRoute(g, es, start, solution) && Weight(es) == solutionWeight)
    && (outcome == Unsolvable <==> timeSpent < timeout && !Reaches(g, start, end))
    && Searched(g, start, end, explored, frontier, distTo, edgeTo)
    && count == |explored|
    && end !in explored
    && (explored != [] ==> explored[0] == start)
    && readings < |clock| && timeSpent == clock[readings]
    && (readings == |explored| || readings == |explored| + 1)
    && (forall j :: 0 <= j < |explored| ==> clock[j] < timeout)
    && (readings == |explored| + 1 ==> timeout <= clock[readings - 1])
    && (readings == |explored| ==>
          frontier == map[] || (end in frontier && forall v :: v in frontier ==> frontier[end] <= frontier[v]))
  }

  // ---------------------------------------------------------------------
  // The solver
  // ---------------------------------------------------------------------

  class AStarSolver<V(==,!new)> {
    var outcome: SolverOutcome
    var solutionWeight: real
    var solution: seq<V>
    var timeSpent: real
    var numStatesExplored: nat
    var distTo: map<V, Cost>
    var edgeTo: map<V, V>

    /** The query the constructor answered, and the stopwatch readings it saw. */
    ghost const graph: AStarGraph<V>
    ghost const start: V
    ghost const end: V
    ghost const timeout: real
    ghost const clock: seq<real>
    /** Proof bookkeeping, see `SearchState`. */
    ghost var stamp: map<V, nat>
    ghost var tick: nat
    /** The vertices polled inside the search loop, in order. */
    ghost var explored: seq<V>
    /** The frontier's priorities when the search loop stopped. */
    ghost var frontier: map<V, real>
    /** The index of the stopwatch reading stored in `timeSpent`. */
    ghost var readings: nat

    /** The search state, with `pq` as the frontier. */
    ghost function State(pq: MinPQ<V>): SearchState<V>
      reads this
    {
      SearchState(distTo, edgeTo, pq.prio, stamp, tick)
    }

    /** What the accessors promise once the constructor has run, as `Concluded` states it of the fields. */
    ghost predicate Classified()
      reads this
    {
      Concluded(graph, start, end, timeout, clock, outcome, timeSpent, solutionWeight, solution,
                frontier, distTo, edgeTo, numStatesExplored, explored, readings)
    }

    /**
     * Runs the search and classifies it. `clock` lists the stopwatch
     * readings: `clock[k]` is what the k-th call of `elapsedTime` reports.
     * They never go backwards, and one before the last has reached
     * `timeout`, so the search ends within the readings given.
     */
    constructor (input: AStarGraph<V>, start: V, end: V, timeout: real, clock: seq<real>)
      requires WellFormed(input)
      requires Monotone(clock) && 2 <= |clock| && timeout <= clock[|clock| - 2]
      ensures graph == input && this.start == start && this.end == end
      ensures this.timeout == timeout && this.clock == clock
      ensures Classified()
      ensures start == end ==> numStatesExplored == 0 && outcome != Unsolvable && solution == [] && solutionWeight == 0.0
    {
      graph, this.start, this.end, this.timeout, this.clock := input, start, end, timeout, clock;
      outcome, solutionWeight, solution, timeSpent, numStatesExplored := Unsolvable, 0.0, [], 0.0, 0;
      distTo, edgeTo := map[start := Finite(0.0)], map[start := start];
      stamp, tick := map[start := 0], 1;
      explored, frontier, readings := [], map[], 0;
      new;
      var pq := Empty<V>().Insert(start, input.estimatedDistanceToGoal(start, end));
      assert State(pq) == InitialState(input, start, end);
      InitialStateInv(input, start, end);
      var k;
      ghost var polls;
      k, pq, polls := Search(input, start, end, timeout, clock, pq);
      SearchedBy(State(pq), input, start, end, polls);
      ReadingsBelow(clock, |polls|, timeout);
      var t := clock[k];
      var o, w, path := Finish(input, start, end, timeout, t, pq, distTo, edgeTo, State(pq));
      Conclude(o, t, w, path, pq.prio, polls, k);
    }

    /**
     * Records the classification of the run, with `fr` the final frontier,
     * `polls` the vertices the search loop polled and `k` the index of the
     * reading `t`.
     */
    method Conclude(o: SolverOutcome, t: real, w: real, path: seq<V>, ghost fr: map<V, real>, ghost polls: seq<V>, ghost k: nat)
      requires Concluded(graph, start, end, timeout, clock, o, t, w, path, fr, distTo, edgeTo, numStatesExplored, polls, k)
      modifies this`outcome, this`timeSpent, this`solutionWeight, this`solution, this`frontier, this`explored, this`readings
      ensures outcome == o && timeSpent == t && solutionWeight == w && solution == path
      ensures frontier == fr && explored == polls && readings == k
      ensures Classified()
    {
      timeSpent, outcome, solutionWeight, solution := t, o, w, path;
      frontier, explored, readings := fr, polls, k;
    }

    /**
     * What follows the search loop, given the final stopwatch reading `t`:
     * at or above `timeout` the run timed out, on an empty frontier it is
     * unsolvable, and otherwise the frontier's first vertex (which is
     * `end`) is polled, its cost becomes the weight and the path to it is
     * rebuilt. On SOLVED, `start` followed by the path is a walk of the
     * graph weighing at most the weight, and with an admissible heuristic
     * exactly the weight, which is then the least weight of any walk from
     * `start` to `end`; UNSOLVABLE is the outcome exactly when time was
     * left and `end` cannot be reached.
     */
    static method Finish(input: AStarGraph<V>, start: V, end: V, timeout: real, t: real, pq: MinPQ<V>,
                         distTo: map<V, Cost>, edgeTo: map<V, V>, ghost s: SearchState<V>)
      returns (o: SolverOutcome, w: real, path: seq<V>)
      requires pq.Valid() && s == SearchState(distTo, edgeTo, pq.prio, s.stamp, s.tick)
      requires SearchInv(s, input, start, end)
      requires timeout <= t || pq.prio == map[] || pq.Peek() == end
      ensures Classification(o, t, w, path, timeout, pq.prio, distTo, edgeTo, start, end)
      ensures o == Solved ==> exists es :: IsRoute(input, es, start, path) && Weight(es) <= w
      ensures o == Solved && Admissible(input, end) ==> Shortest(input, start, end, w)
      ensures o == Solved && Admissible(input, end) ==> exists es :: IsRoute(input, es, start, path) && Weight(es) == w
      ensures o == Unsolvable <==> t < timeout && !Reaches(input, start, end)
      ensures start == end ==> w == 0.0
    {
      if t >= timeout {
        o, w, path := Timeout, 0.0, [];
      } else if pq.Size() == 0 {
        o, w, path := Unsolvable, 0.0, [];
      } else {
        var goal := pq.Poll().0;
        path := BuildSolution(edgeTo, start, goal, s);
        o, w := Solved, distTo[goal].value;
      }
      ClassificationHolds(s, input, start, end, timeout, t, o, w, path);
      SolvedIsRoute(o, t, w, path, timeout, s, input, start, end);
      SolvedIsShortest(o, t, w, path, timeout, s, input, start, end);
      UnsolvableExactly(o, t, w, path, timeout, s, input, start, end);
    }

    /**
     * The search loop's invariant after `k` stopwatch readings and the polls
     * `polls`: the fields and `pq` are what the rounds over `polls` leave,
     * which polled least-priority vertices in order, and satisfy the search
     * invariant; every poll is counted, none took `end`, the first took
     * `start`, and the last followed a reading below `timeout`.
     */
    ghost predicate Running(input: AStarGraph<V>, start: V, end: V, timeout: real, clock: seq<real>, k: nat, pq: MinPQ<V>, polls: seq<V>)
      reads this
    {
      && WellFormed(input)
      && pq.Valid() && SearchInv(State(pq), input, start, end)
      && State(pq) == Run(InitialState(input, start, end), polls, input, end)
      && PolledInOrder(InitialState(input, start, end), polls, input, end)
      && numStatesExplored == |polls| && end !in polls
      && (polls == [] ==> pq.prio.Keys == {start})
      && (polls != [] ==> polls[0] == start)
      && k == |polls| && k <= |clock| - 2
      && (polls != [] ==> clock[k - 1] < timeout)
    }

    /**
     * The search loop: while the frontier is not empty, its first vertex is
     * not `end` and the stopwatch, read once more, is below `timeout`, poll
     * a vertex, count it, and relax its outgoing edges (`Round`). Returns
     * the number `k` of stopwatch readings taken, the final frontier and the
     * vertices polled. The fields and the frontier are what `Run` gives for
     * those polls, each of which had the least priority. Each poll followed a reading below `timeout`; the loop stopped either
     * without a further reading, on an empty frontier or with `end` first,
     * or on one further reading at or above `timeout`. The invariant holds
     * at the end and no cost went up.
     */
    method Search(input: AStarGraph<V>, start: V, end: V, timeout: real, clock: seq<real>, pq0: MinPQ<V>)
      returns (k: nat, pq: MinPQ<V>, ghost polls: seq<V>)
      requires WellFormed(input)
      requires Monotone(clock) && 2 <= |clock| && timeout <= clock[|clock| - 2]
      requires pq0.Valid() && State(pq0) == InitialState(input, start, end)
      requires numStatesExplored == 0
      modifies this`distTo, this`edgeTo, this`stamp, this`tick, this`numStatesExplored
      ensures pq.Valid() && SearchInv(State(pq), input, start, end)
      ensures State(pq) == Run(old(State(pq0)), polls, input, end)
      ensures PolledInOrder(old(State(pq0)), polls, input, end)
      ensures numStatesExplored == |polls| && end !in polls
      ensures polls == [] ==> pq.prio.Keys == {start}
      ensures polls != [] ==> polls[0] == start
      ensures (k == |polls| || k == |polls| + 1) && k < |clock|
      ensures polls != [] ==> clock[|polls| - 1] < timeout
      ensures k == |polls| ==> pq.prio == map[] || pq.Peek() == end
      ensures k == |polls| + 1 ==> timeout <= clock[k - 1]
      ensures NoIncrease(old(distTo), distTo)
    {
      InitialStateInv(input, start, end);
      k, pq, polls := 0, pq0, [];
      while true
        invariant Running(input, start, end, timeout, clock, k, pq, polls)
        invariant NoIncrease(old(distTo), distTo)
        decreases |clock| - k
      {
        if pq.Size() == 0 || pq.Peek() == end {
          return;
        }
        var now := clock[k];
        k := k + 1;
        if now >= timeout {
          return;
        }
        ghost var before := distTo;
        pq, polls := Round(input, start, end, timeout, clock, k, pq, polls);
        NoIncreaseTransitive(old(distTo), before, distTo);
      }
    }

    /**
     * One round of the search loop, after the `k`-th reading came out below
     * `timeout`: expand the frontier's first vertex and record the poll. The
     * new state is `Settle` of the old one at that vertex, the loop
     * invariant holds again and no cost went up.
     */
    method Round(input: AStarGraph<V>, start: V, end: V, timeout: real, clock: seq<real>, k: nat, pq0: MinPQ<V>, ghost polls0: seq<V>)
      returns (pq: MinPQ<V>, ghost polls: seq<V>)
      requires WellFormed(input)
      requires Monotone(clock) && 2 <= |clock| && timeout <= clock[|clock| - 2]
      requires 0 < k && Running(input, start, end, timeout, clock, k - 1, pq0, polls0)
      requires clock[k - 1] < timeout && pq0.prio != map[] && pq0.Peek() != end
      modifies this`distTo, this`edgeTo, this`stamp, this`tick, this`numStatesExplored
      ensures Running(input, start, end, timeout, clock, k, pq, polls)
      ensures State(pq) == Settle(old(State(pq0)), pq0.Peek(), input, end)
      ensures polls == polls0 + [pq0.Peek()]
      ensures NoIncrease(old(distTo), distTo)
    {
      assert clock[k - 1] < clock[|clock| - 2];
      SettleKeepsInvariant(State(pq0), pq0.Peek(), input, start, end);
      RunExtend(InitialState(input, start, end), polls0, pq0.Peek(), input, end);
      polls := polls0 + [pq0.Peek()];
      pq := Expand(input, end, pq0);
    }

    /**
     * Poll the frontier's first vertex, count it, and relax its outgoing
     * edges; the new state is `Settle` of the old one at that vertex.
     */
    method Expand(input: AStarGraph<V>, end: V, pq0: MinPQ<V>) returns (pq: MinPQ<V>)
      requires WellFormed(input)
      requires pq0.Valid() && pq0.prio != map[] && pq0.Peek() in distTo
      modifies this`distTo, this`edgeTo, this`stamp, this`tick, this`numStatesExplored
      ensures pq.Valid()
      ensures numStatesExplored == old(numStatesExplored) + 1
      ensures State(pq) == Settle(old(State(pq0)), pq0.Peek(), input, end)
    {
      var polled := pq0.Poll();
      var p := polled.0;
      numStatesExplored := numStatesExplored + 1;
      pq := RelaxNeighbors(p, input, end, polled.1);
    }

    /**
     * Relaxes every edge out of `p`, in the order the graph lists them; the
     * new state is `RelaxAll` of the old one over those edges.
     */
    method RelaxNeighbors(p: V, input: AStarGraph<V>, end: V, pq0: MinPQ<V>) returns (pq: MinPQ<V>)
      requires WellFormed(input)
      requires pq0.Valid() && p in distTo
      modifies this`distTo, this`edgeTo, this`stamp, this`tick
      ensures forall e :: e in Edges(input, p) ==> e.from in old(distTo)
      ensures pq.Valid()
      ensures State(pq) == RelaxAll(old(State(pq0)), Edges(input, p), input, end)
    {
      pq := pq0;
      var edges := Edges(input, p);
      for i := 0 to |edges|
        invariant pq.Valid() && p in distTo
        invariant forall e :: e in edges[..i] ==> e.from in old(distTo)
        invariant State(pq) == RelaxAll(old(State(pq0)), edges[..i], input, end)
      {
        assert edges[..i + 1][..i] == edges[..i];
        assert edges[i] in edges;
        pq := Relax(edges[i], pq, input, end);
      }
      assert edges[..|edges|] == edges;
    }

    /**
     * The path walk: from `target`, follow `edgeTo` back until `start`,
     * collecting every vertex but `start`, then reverse the list.
     */
    static method BuildSolution(edgeTo: map<V, V>, start: V, target: V, ghost s: SearchState<V>) returns (solution: seq<V>)
      requires s.edgeTo == edgeTo && TreeShaped(s, start)
      requires target in edgeTo
      ensures IsPath(solution, start, target, edgeTo)
    {
      ghost var path: seq<V> := [];
      solution := [];
      var goal := target;
      while goal != start
        invariant goal in s.edgeTo
        invariant path == Reverse(solution)
        invariant IsPath(path, goal, target, s.edgeTo)
        invariant forall x :: x in path ==> Below(s.distTo, s.stamp, goal, x)
        decreases |BelowSet(s, goal)|
      {
        WalkStep(s, start, goal, target, path);
        ReverseSnoc(solution, goal);
        path := [goal] + path;
        solution := solution + [goal];
        goal := edgeTo[goal];
      }
      solution := Reverse(solution);
    }

    /**
     * Relaxes edge `e` as `RelaxStep` says and returns the frontier; the
     * target's frontier entry is changed when present and inserted
     * otherwise.
     */
    method Relax(e: WeightedEdge<V>, pq0: MinPQ<V>, input: AStarGraph<V>, end: V) returns (pq: MinPQ<V>)
      requires pq0.Valid() && e.from in distTo
      modifies this`distTo, this`edgeTo, this`stamp, this`tick
      ensures pq.Valid()
      ensures State(pq) == RelaxStep(old(State(pq0)), e, input, end)
    {
      var p, q, w := e.from, e.to, e.weight;
      pq := pq0;
      var dist := if q in distTo then distTo else distTo[q := Infinite];
      var viaP := Plus(dist[p], w);
      if Less(viaP, dist[q]) {
        var priority := viaP.value + input.estimatedDistanceToGoal(q, end);
        if pq.Contains(q) {
          pq := pq.ChangePriority(q, priority);
        } else {
          pq := pq.Insert(q, priority);
        }
        distTo, edgeTo := dist[q := viaP], edgeTo[q := p];
        stamp, tick := stamp[q := tick], tick + 1;
      } else {
        distTo := dist;
      }
    }

    /**
     * The outcome of the run: TIMEOUT exactly when the time spent reached
     * `timeout`; UNSOLVABLE exactly when time was left and `end` cannot be
     * reached from `start` in the graph.
     */
    function Outcome(): (r: SolverOutcome)
      requires Classified()
      reads this
      ensures r == Timeout <==> timeout <= timeSpent
      ensures r == Unsolvable ==> frontier == map[]
      ensures r == Unsolvable <==> timeSpent < timeout && !Reaches(graph, start, end)
    {
      outcome
    }

    /**
     * The path found: empty unless SOLVED, otherwise the `edgeTo` chain from
     * `start` (left out) to `end`, which, preceded by `start`, is a walk of
     * the graph.
     */
    function Solution(): (r: seq<V>)
      requires Classified()
      reads this
      ensures outcome != Solved ==> r == []
      ensures outcome == Solved ==> IsPath(r, start, end, edgeTo)
      ensures outcome == Solved ==> exists es :: IsRoute(graph, es, start, r)
    {
      solution
    }

    /**
     * The path's weight: 0 unless SOLVED, otherwise the cost of `end`, which
     * is at least the summed weight of the edges of a walk of the graph from
     * `start` through the solution. With an admissible heuristic it is
     * exactly that walk's weight, and no walk from `start` to `end` weighs
     * less.
     */
    function SolutionWeight(): (r: real)
      requires Classified()
      reads this
      ensures outcome != Solved ==> r == 0.0
      ensures outcome == Solved ==> end in distTo && distTo[end] == Finite(r)
      ensures outcome == Solved ==> exists es :: IsRoute(graph, es, start, solution) && Weight(es) <= r
      ensures outcome == Solved && Admissible(graph, end) ==> Shortest(graph, start, end, r)
      ensures outcome == Solved && Admissible(graph, end) ==> exists es :: IsRoute(graph, es, start, solution) && Weight(es) == r
      ensures r >= 0.0
    {
      solutionWeight
    }

    /**
     * The number of polls made by the search loop, each after a reading
     * below `timeout`: `explored` lists them, each of least priority on the
     * frontier the rounds before it left, and those rounds left the final
     * costs, links and frontier.
     */
    function NumStatesExplored(): (r: nat)
      requires Classified()
      reads this
      ensures r == |explored|
      ensures Searched(graph, start, end, explored, frontier, distTo, edgeTo)
      ensures forall j :: 0 <= j < r ==> clock[j] < timeout
    {
      numStatesExplored
    }
  }
}
