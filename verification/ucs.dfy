/**
 * `UCS.find_path`: uniform-cost search. Its queue holds `(cost, node)`
 * pairs and its loop is the best-first loop of `Astar.find_path` without a
 * heuristic. The module states the UCS steps on its own state and proves
 * that each of them — the seed, one relaxation, one pop — is mirrored, entry
 * for entry, by the A* step run with the zero heuristic. `FindPath` runs the
 * A* loop with `Zero`; the step lemmas are not chained over a whole run, and
 * the exits (popping the goal, a node without an adjacency list) are those
 * of the A* loop.
 */
module Ucs {
  import opened Wrappers
  import opened Deg
  import opened AstarState
  import Astar

  /** A UCS queue entry `(cost, node)`. */
  datatype Item = Item(cost: int, name: string)

  /** Tuple order on `(cost, node)`. */
  predicate ItemLe(a: Item, b: Item)
  {
    a.cost < b.cost || (a.cost == b.cost && StrLe(a.name, b.name))
  }

  /** The heuristic UCS does without. */
  function Zero(n: string): int
  {
    0
  }

  /** The A* entry standing for a UCS entry: f and g both equal the cost. */
  function Lift(e: Item): Entry
  {
    Entry(e.cost, e.cost, e.name)
  }

  /** `(c, n) <= (c', n')` exactly when `(c, c, n) <= (c', c', n')`. */
  lemma OrderAgrees(a: Item, b: Item)
    ensures ItemLe(a, b) <==> EntryLe(Lift(a), Lift(b))
  {
  }

  /** The UCS state: the queue, the explored set, `best_cost` and `paths`. */
  datatype State = State(frontier: multiset<Item>, explored: set<string>, best: map<string, int>,
                         paths: map<string, string>)

  /** The UCS neighbour step: an unexplored neighbour is pushed when its
      cost is new or strictly better. */
  function Relax(st: State, cur: Item, w: string, d: int): (r: State)
    ensures r.explored == st.explored
    ensures r != st <==> w !in st.explored && (w !in st.best || cur.cost + d < st.best[w])
    ensures r != st ==> r.frontier == st.frontier + multiset{Item(cur.cost + d, w)} && r.paths == st.paths[w := cur.name]
  {
    var newCost := cur.cost + d;
    if w !in st.explored && (w !in st.best || newCost < st.best[w]) then
      State(st.frontier + multiset{Item(newCost, w)}, st.explored, st.best[w := newCost], st.paths[w := cur.name])
    else st
  }

  /** The UCS state `st` and the A* state `s` agree: the A* queue holds the
      lifted UCS entries with the same multiplicities and nothing else, the
      sets and maps coincide, and `path_cost` equals `best_cost`. */
  ghost predicate Mirrors(st: State, s: Search)
  {
    && (forall e :: st.frontier[e] == s.frontier[Lift(e)])
    && (forall e :: e in s.frontier ==> e.tot == e.g)
    && s.explored == st.explored && s.best == st.best && s.pathCost == st.best && s.paths == st.paths
  }

  /** Both searches start from the start node at cost 0. */
  lemma InitialAgrees(start: string)
    ensures Mirrors(State(multiset{Item(0, start)}, {}, map[start := 0], map[]), Initial(Zero, start))
  {
    var s := Initial(Zero, start);
    forall e
      ensures multiset{Item(0, start)}[e] == s.frontier[Lift(e)]
    {
      if e != Item(0, start) {
        assert Lift(e) != Entry(0, 0, start);
      }
    }
  }

  lemma LiftInjective(a: Item, b: Item)
    requires Lift(a) == Lift(b)
    ensures a == b
  {
  }

  /** Looking at a neighbour does the same on both sides. */
  lemma RelaxAgrees(st: State, s: Search, cur: Item, w: string, d: int)
    requires Mirrors(st, s)
    ensures Mirrors(Relax(st, cur, w, d), AstarState.Relax(s, Zero, Lift(cur), w, d))
  {
    var st', s' := Relax(st, cur, w, d), AstarState.Relax(s, Zero, Lift(cur), w, d);
    if st' != st {
      var it := Item(cur.cost + d, w);
      assert s'.frontier == s.frontier + multiset{Lift(it)};
      forall e
        ensures st'.frontier[e] == s'.frontier[Lift(e)]
      {
        if e != it {
          assert Lift(e) != Lift(it);
        }
      }
    }
  }

  /** The least UCS entry lifts to the least A* entry, and popping it does the
      same on both sides. */
  lemma PopAgrees(st: State, s: Search, cur: Item)
    requires Mirrors(st, s) && cur in st.frontier && forall e :: e in st.frontier ==> ItemLe(cur, e)
    ensures IsMin(Lift(cur), s.frontier)
    ensures Mirrors(State(st.frontier - multiset{cur}, st.explored + {cur.name}, st.best, st.paths), Popped(s, Lift(cur)))
  {
    assert st.frontier[cur] == s.frontier[Lift(cur)];
    forall x | x in s.frontier
      ensures EntryLe(Lift(cur), x)
    {
      var e := Item(x.tot, x.name);
      assert Lift(e) == x;
      assert st.frontier[e] == s.frontier[x];
      OrderAgrees(cur, e);
    }
    var s' := Popped(s, Lift(cur));
    forall e
      ensures (st.frontier - multiset{cur})[e] == s'.frontier[Lift(e)]
    {
      if e != cur {
        assert Lift(e) != Lift(cur);
      }
    }
  }

  /** Every edge cost is non-negative. */
  predicate NonNegative(g: Graph)
  {
    forall n, i :: n in g.edges && 0 <= i < |g.edges[n]| ==> g.edges[n][i].1 >= 0
  }

  /** The zero heuristic is consistent exactly when no edge has a negative
      cost. */
  lemma ZeroConsistent(g: Graph)
    ensures Consistent(g, Zero) <==> NonNegative(g)
  {
  }

  /** `UCS.find_path`: a path of edges from `start` to `end` with the
      explored set, `NotFound` when no path leads there, or `KeyError` from
      a start that is not a node or an edge leading outside the graph. The
      ghost `pops` lists the entries taken from the queue; with no negative
      edge costs their costs never decrease. */
  method FindPath(g: Graph, start: string, end: string)
    returns (r: Result<Outcome>, ghost pops: seq<Entry>)
    ensures r.Failure? ==> r.error == KeyError && start != end && (start !in g.edges || !Closed(g))
    ensures start == end ==> r == Success(Found([start], {start}))
    ensures start !in g.edges && start != end ==> r == Failure(KeyError)
    ensures r.Success? && r.value.Found? ==>
      var p := r.value.path;
      && |p| >= 1 && p[0] == start && p[|p| - 1] == end && IsPath(g, p)
      && start in r.value.explored && end in r.value.explored
    ensures r == Success(NotFound) ==>
      forall p :: |p| >= 1 && p[0] == start && IsPath(g, p) ==> p[|p| - 1] != end
    ensures forall i :: 0 <= i < |pops| ==> pops[i].tot == pops[i].g
    ensures NonNegative(g) ==> forall i, j :: 0 <= i < j < |pops| ==> pops[i].g <= pops[j].g
  {
    ZeroConsistent(g);
    r, pops := Astar.FindPath(g, Zero, start, end);
  }
}
