/**
 * Best-first search with back-pointers (`Astar.find_path`; `UCS.find_path`
 * is the same loop with a zero heuristic, see module `Ucs`).
 *
 * The priority queue is a multiset of (f, g, name) entries from which the
 * least entry in tuple order is taken. Entries are never removed when a
 * cheaper one for the same node is pushed, and a popped node that was
 * already explored is expanded again; the model keeps both behaviours and
 * proves that such a stale expansion pushes nothing.
 */
module Astar {
  import opened Wrappers
  import opened Collections
  import opened Deg
  import opened Trace
  import opened AstarState

  /** `PriorityQueue.get`: the least entry of a non-empty queue. */
  method Least(m: multiset<Entry>) returns (e: Entry)
    requires m != multiset{}
    ensures IsMin(e, m)
  {
    MinExists(m);
    e :| e in m && IsMin(e, m);
  }

  /** The neighbour loop `for neighbor, neigh_cost in adj(cur)`. */
  method Expand(g: Graph, h: string -> int, start: string, end: string, cur: Entry, st0: Search,
                ghost rank: map<string, nat>, ghost counter: nat, ghost pops: seq<Entry>)
    returns (st: Search)
    requires ExpInv(g, h, start, end, cur, st0, st0, rank, counter, pops, 0)
    ensures ExpInv(g, h, start, end, cur, st0, st, rank, counter, pops, |g.edges[cur.name]|)
  {
    st := st0;
    var adj := g.edges[cur.name];
    var i := 0;
    while i < |adj|
      invariant ExpInv(g, h, start, end, cur, st0, st, rank, counter, pops, i)
      invariant adj == g.edges[cur.name]
    {
      RelaxStep(g, h, start, end, cur, st0, st, rank, counter, pops, i);
      st := Relax(st, h, cur, adj[i].0, adj[i].1);
      i := i + 1;
    }
  }

  /** The goal branch: walk the breadcrumbs back from `end` to `start`,
      reverse, and return the path with the explored set. A missing
      breadcrumb raises `KeyError`; when every breadcrumb leads on, the
      answer is a path of edges from `start` to `end`. */
  method Goal(g: Graph, paths: map<string, string>, start: string, end: string,
              explored: set<string>, ghost rank: map<string, nat>)
    returns (r: Result<Outcome>)
    requires Breadcrumbs(g, paths, start, rank)
    requires end == start || end in rank || end !in paths
    ensures r.Failure? ==> r.error == KeyError
    ensures r.Success? ==>
      && r.value.Found? && r.value.explored == explored
      && var p := r.value.path;
         |p| >= 1 && p[0] == start && p[|p| - 1] == end && IsPath(g, p)
    ensures Linked(paths, start) && (end == start || end in paths) ==> r.Success?
    ensures end != start && end !in paths ==> r == Failure(KeyError)
    ensures end == start ==> r == Success(Found([start], explored))
  {
    var back := Retrace(g, paths, start, end, rank);
    if back.Failure? {
      return Failure(KeyError);
    }
    return Success(Found(back.value, explored));
  }

  /** Popping the goal or a node `adj` has no entry for ends the search:
      with the retraced path in the first case, with `KeyError` in the
      second. */
  method Halt(g: Graph, h: string -> int, start: string, end: string, st: Search,
              ghost rank: map<string, nat>, ghost counter: nat, ghost pops: seq<Entry>, cur: Entry)
    returns (r: Result<Outcome>)
    requires Core(g, h, start, end, st, rank, counter, pops) && cur in st.frontier
    requires cur.name == end || cur.name !in g.edges
    ensures Answer(g, start, end, r) && r != Success(NotFound)
  {
    if cur.name == end {
      FoundGoal(g, h, start, end, st, rank, counter, pops, cur);
      if start == end {
        FirstPop(g, h, start, end, st, rank, counter, pops, cur);
      }
      r := Goal(g, st.paths, start, end, Popped(st, cur).explored, rank[end := counter]);
      return;
    }
    MissingNode(g, h, start, end, st, rank, counter, pops, cur);
    return Failure(KeyError);
  }

  /** Popping any other entry: it joins the explored set and its neighbours
      are looked at. A node popped for the first time grows the explored
      set; a node popped again leaves everything but the queue as it was. */
  method Advance(g: Graph, h: string -> int, start: string, end: string, st: Search,
                 ghost rank: map<string, nat>, ghost counter: nat, ghost pops: seq<Entry>, cur: Entry)
    returns (st': Search, ghost rank': map<string, nat>, ghost counter': nat, ghost pops': seq<Entry>)
    requires Inv(g, h, start, end, st, rank, counter, pops)
    requires IsMin(cur, st.frontier) && cur.name != end && cur.name in g.edges
    ensures Inv(g, h, start, end, st', rank', counter', pops')
    ensures st.explored <= st'.explored && st'.explored - st.explored <= Names(g) + {start}
    ensures st'.explored == st.explored ==> |st'.frontier| < |st.frontier|
  {
    if start !in g.edges {
      FirstPop(g, h, start, end, st, rank, counter, pops, cur);
    }
    PopStep(g, h, start, end, st, rank, counter, pops, cur);
    var st0 := Popped(st, cur);
    rank', counter', pops' := Ranked(rank, cur, counter), counter + 1, pops + [cur];
    st' := Expand(g, h, start, end, cur, st0, rank', counter', pops');
    ExpandDone(g, h, start, end, cur, st0, st', rank', counter', pops');
  }

  /** One turn of the search loop: pop the least entry, then stop or go on. */
  method Step(g: Graph, h: string -> int, start: string, end: string, st: Search,
              ghost rank: map<string, nat>, ghost counter: nat, ghost pops: seq<Entry>)
    returns (stop: Option<Result<Outcome>>, st': Search,
             ghost rank': map<string, nat>, ghost counter': nat, ghost pops': seq<Entry>)
    requires Inv(g, h, start, end, st, rank, counter, pops) && st.frontier != multiset{}
    ensures PopsOk(g, h, pops', st'.frontier)
    ensures stop.Some? ==> Answer(g, start, end, stop.value) && stop.value != Success(NotFound)
    ensures stop.None? ==>
      && Inv(g, h, start, end, st', rank', counter', pops')
      && st.explored <= st'.explored && st'.explored - st.explored <= Names(g) + {start}
      && (st'.explored == st.explored ==> |st'.frontier| < |st.frontier|)
  {
    var cur := Least(st.frontier);
    if cur.name == end || cur.name !in g.edges {
      PopPops(g, h, pops, st.frontier, cur);
      var r := Halt(g, h, start, end, st, rank, counter, pops, cur);
      return Some(r), Popped(st, cur), rank, counter, pops + [cur];
    }
    st', rank', counter', pops' := Advance(g, h, start, end, st, rank, counter, pops, cur);
    stop := None;
  }

  /** The `while not frontier.empty()` loop. */
  method Run(g: Graph, h: string -> int, start: string, end: string)
    returns (r: Result<Outcome>, ghost pops: seq<Entry>)
    ensures Answer(g, start, end, r)
    ensures PopsOk(g, h, pops, multiset{})
  {
    var st := Initial(h, start);
    ghost var rank: map<string, nat> := map[];
    ghost var counter: nat := 0;
    pops := [];
    InitialInv(g, h, start, end);
    while st.frontier != multiset{}
      invariant Inv(g, h, start, end, st, rank, counter, pops)
      decreases |(Names(g) + {start}) - st.explored|, |st.frontier|
    {
      var stop, st', rank', counter', pops' := Step(g, h, start, end, st, rank, counter, pops);
      if stop.Some? {
        return stop.value, pops';
      }
      if st'.explored != st.explored {
        ObservedGrows(Names(g) + {start}, st.explored, st'.explored);
      }
      st, rank, counter, pops := st', rank', counter', pops';
    }
    Exhausted(g, h, start, end, st, rank, counter, pops);
    return Success(NotFound), pops;
  }

  /** `Astar.find_path`. The outcome is `Found(path, explored)` with a path
      of edges from `start` to `end`, or `NotFound` when no path leads there;
      a missing key surfaces as `KeyError` and can only come from a start
      that is not a node or from an edge leading outside the graph. The
      ghost `pops` lists the entries in the order they were taken from the
      queue: each carries f = g + h, and with a consistent heuristic their
      f-values never decrease. */
  method FindPath(g: Graph, h: string -> int, start: string, end: string)
    returns (r: Result<Outcome>, ghost pops: seq<Entry>)
    ensures r.Failure? ==> r.error == KeyError && start != end && (start !in g.edges || !Closed(g))
    ensures start == end ==> r == Success(Found([start], {start}))
    ensures start !in g.edges && start != end ==> r == Failure(KeyError)
    ensures r.Success? && r.value.Found? ==>
      var p := r.value.path;
      && |p| >= 1 && p[0] == start && p[|p| - 1] == end && IsPath(g, p)
      && start in r.value.explored && end in r.value.explored
    ensures r == Success(NotFound) ==>
      forall p :: |p| >= 1 && p[0] == start && IsPath(g, p) ==> p[|p| - 1] != end
    ensures forall i :: 0 <= i < |pops| ==> pops[i].tot == pops[i].g + h(pops[i].name)
    ensures Consistent(g, h) ==> forall i, j :: 0 <= i < j < |pops| ==> pops[i].tot <= pops[j].tot
  {
    r, pops := Run(g, h, start, end);
  }
}

