/**
 * Breadth-first search over a directed edge graph (`BFS.find_path`).
 *
 * Two details of the source shape what it computes:
 *  - the observed set starts as `set(start_node)`, the set of one-character
 *    strings of the start name, rather than `{start_node}`; a node whose name
 *    is one of those characters is never enqueued, and when it is the goal
 *    retracing finds no breadcrumb for it;
 *  - the goal is recognised when it shows up as a neighbour of the node being
 *    expanded, whether or not it was observed before.
 *
 * The loop (`Search`) takes the initial observed set as a parameter:
 * `FindPath` runs it as written and `FindPathFixed` with `{start_node}`.
 */
module Bfs {
  import opened Wrappers
  import opened Collections
  import opened Deg
  import opened Trace

  /** `set(start_node)`: the one-character strings of the start name. */
  function Seed(start: string): (r: set<string>)
    ensures forall s :: s in r <==> |s| == 1 && s[0] in start
  {
    var r := set c | c in start :: [c];
    assert forall s: string :: |s| == 1 ==> s == [s[0]];
    r
  }

  /** Node `x` was expanded: it is a node, each of its neighbours is
      observed, and none of them is the goal. */
  predicate Expanded(g: Graph, x: string, observed: set<string>, end: string)
  {
    x in g.edges &&
    forall i :: 0 <= i < |g.edges[x]| ==> g.edges[x][i].0 in observed && g.edges[x][i].0 != end
  }

  /** A path of edges out of `start` with at least one step, whose inner
      nodes are not in the seed: the paths along which the search can look. */
  predicate SeedFreePath(g: Graph, start: string, seed: set<string>, p: seq<string>)
  {
    && |p| >= 2 && p[0] == start && IsPath(g, p)
    && forall i :: 1 <= i < |p| - 1 ==> p[i] !in seed
  }

  /** The queue, the observed set and the breadcrumbs of a search in progress. */
  datatype State = State(frontier: seq<string>, observed: set<string>, paths: map<string, string>)

  /** The breadcrumbs are sound and lead back to the start; `rank` numbers the
      enqueued nodes in order and `counter` is the next number. */
  ghost predicate Crumbs(g: Graph, start: string, seed: set<string>, st: State, rank: map<string, nat>, counter: nat)
  {
    && Breadcrumbs(g, st.paths, start, rank) && Linked(st.paths, start)
    && (forall k :: k in rank ==> rank[k] < counter && (k == start || k in st.paths))
    && (forall k :: k in st.paths && k != start ==> k in rank)
    && (forall k :: k in st.paths ==> k in st.observed)
    && (forall v :: v in st.frontier ==> v in rank && (v == start || v in st.paths))
    && (forall v :: v in st.observed ==> v in seed || v == start || v in st.paths)
    && seed <= st.observed && (forall k :: k in st.paths ==> k !in seed)
  }

  /** Everything observed is seeded, expanded or queued; the expanded nodes
      (with `cur`, the one being expanded, if any) have observed neighbours
      and none of them is the goal. */
  ghost predicate Covered(g: Graph, start: string, seed: set<string>, end: string, st: State, explored: set<string>, cur: Option<string>)
  {
    && (forall v :: v in explored ==> v == start || v in st.paths)
    && (forall v :: v in st.observed ==> v in seed || v in explored || Some(v) == cur || v in st.frontier)
    && (start in explored || Some(start) == cur || start in st.frontier)
    && (forall x :: x in explored ==> Expanded(g, x, st.observed, end))
    && (start in g.edges && Closed(g) ==> forall v :: v in st.frontier ==> v in g.edges)
  }

  /** Enqueueing an unobserved neighbour `nb` of `cur`, with `cur` as its breadcrumb. */
  function Push(st: State, cur: string, nb: string): State
  {
    State(st.frontier + [nb], st.observed + {nb}, st.paths[nb := cur])
  }

  /** The ghost numbering after `Push`: a new node gets the next number. */
  ghost function PushRank(rank: map<string, nat>, counter: nat, nb: string): (map<string, nat>, nat)
  {
    if nb in rank then (rank, counter) else (rank[nb := counter], counter + 1)
  }

  lemma PushKeepsCrumbs(g: Graph, start: string, seed: set<string>, end: string, st: State, explored: set<string>,
                        rank: map<string, nat>, counter: nat, cur: string, nb: string)
    requires Crumbs(g, start, seed, st, rank, counter)
    requires Covered(g, start, seed, end, st, explored, Some(cur))
    requires cur in rank && (cur == start || cur in st.paths)
    requires IsEdge(g, cur, nb) && nb !in st.observed
    ensures var (rank', counter') := PushRank(rank, counter, nb);
      && Crumbs(g, start, seed, Push(st, cur, nb), rank', counter')
      && Covered(g, start, seed, end, Push(st, cur, nb), explored, Some(cur))
      && cur in rank' && (cur == start || cur in Push(st, cur, nb).paths)
  {
    var st' := Push(st, cur, nb);
    var (rank', counter') := PushRank(rank, counter, nb);
    assert nb in rank ==> nb == start;
    forall k | k in st'.paths
      ensures IsEdge(g, st'.paths[k], k)
      ensures k != start ==> k in rank' && st'.paths[k] in rank' && rank'[st'.paths[k]] < rank'[k]
    {
      if k != nb {
        assert k in st.paths;
      }
    }
    forall x | x in explored
      ensures Expanded(g, x, st'.observed, end)
    {
      assert Expanded(g, x, st.observed, end);
    }
  }

  /** What holds after the first `i` neighbours of `cur` were looked at,
      starting from state `st0`. */
  ghost predicate ExpandInv(g: Graph, start: string, seed: set<string>, end: string, cur: string, st0: State, st: State,
                            explored: set<string>, rank: map<string, nat>, counter: nat, i: int)
  {
    && cur in g.edges && 0 <= i <= |g.edges[cur]|
    && cur in rank && (cur == start || cur in st.paths)
    && Crumbs(g, start, seed, st, rank, counter)
    && Covered(g, start, seed, end, st, explored, Some(cur))
    && (forall j :: 0 <= j < i ==> g.edges[cur][j].0 in st.observed && g.edges[cur][j].0 != end)
    && st0.observed <= st.observed && st.observed - st0.observed <= Names(g)
    && (st.observed == st0.observed ==> st.frontier == st0.frontier)
  }

  /** One neighbour `nb`: enqueue it unless it was observed. */
  function Visit(st: State, cur: string, nb: string): State
  {
    if nb in st.observed then st else Push(st, cur, nb)
  }

  ghost function VisitRank(st: State, rank: map<string, nat>, counter: nat, nb: string): (map<string, nat>, nat)
  {
    if nb in st.observed then (rank, counter) else PushRank(rank, counter, nb)
  }

  lemma VisitStep(g: Graph, start: string, seed: set<string>, end: string, cur: string, st0: State, st: State,
                  explored: set<string>, rank: map<string, nat>, counter: nat, i: int)
    requires ExpandInv(g, start, seed, end, cur, st0, st, explored, rank, counter, i)
    requires i < |g.edges[cur]|
    ensures var nb := g.edges[cur][i].0;
      var (rank', counter') := VisitRank(st, rank, counter, nb);
      && nb in Visit(st, cur, nb).observed
      && Crumbs(g, start, seed, Visit(st, cur, nb), rank', counter')
      && (nb != end ==> ExpandInv(g, start, seed, end, cur, st0, Visit(st, cur, nb), explored, rank', counter', i + 1))
  {
    var nb := g.edges[cur][i].0;
    assert IsEdge(g, cur, nb);
    if nb !in st.observed {
      PushKeepsCrumbs(g, start, seed, end, st, explored, rank, counter, cur, nb);
      assert nb in Names(g);
    }
  }

  /** The inner loop of `find_path`: enqueue the unobserved neighbours of
      `cur`, leaving breadcrumbs, and stop as soon as one of them is the goal. */
  method Expand(g: Graph, start: string, seed: set<string>, end: string, cur: string, st: State,
                ghost explored: set<string>, ghost rank: map<string, nat>, ghost counter: nat)
    returns (st': State, found: bool, ghost rank': map<string, nat>, ghost counter': nat)
    requires ExpandInv(g, start, seed, end, cur, st, st, explored, rank, counter, 0)
    ensures Crumbs(g, start, seed, st', rank', counter')
    ensures found ==> end in st'.observed
    ensures !found ==> ExpandInv(g, start, seed, end, cur, st, st', explored, rank', counter', |g.edges[cur]|)
  {
    var adjs := g.edges[cur];
    st', rank', counter' := st, rank, counter;
    var i := 0;
    while i < |adjs|
      invariant ExpandInv(g, start, seed, end, cur, st, st', explored, rank', counter', i)
    {
      var nb := adjs[i].0;
      VisitStep(g, start, seed, end, cur, st, st', explored, rank', counter', i);
      rank', counter' := VisitRank(st', rank', counter', nb).0, VisitRank(st', rank', counter', nb).1;
      st' := Visit(st', cur, nb);
      if nb == end {
        return st', true, rank', counter';
      }
      i := i + 1;
    }
    found := false;
  }

  /** After the last neighbour, `cur` counts as expanded. */
  lemma ExpandDone(g: Graph, start: string, seed: set<string>, end: string, cur: string, st0: State, st: State,
                   explored: set<string>, rank: map<string, nat>, counter: nat)
    requires cur in g.edges
    requires ExpandInv(g, start, seed, end, cur, st0, st, explored, rank, counter, |g.edges[cur]|)
    ensures Covered(g, start, seed, end, st, explored + {cur}, None)
  {
    assert Expanded(g, cur, st.observed, end);
  }

  /** Taking the head off the queue to expand it. */
  lemma PopKeeps(g: Graph, start: string, seed: set<string>, end: string, st: State, explored: set<string>,
                 rank: map<string, nat>, counter: nat)
    requires st.frontier != []
    requires Crumbs(g, start, seed, st, rank, counter)
    requires Covered(g, start, seed, end, st, explored, None)
    ensures var cur := st.frontier[0];
      var popped := State(st.frontier[1..], st.observed, st.paths);
      && (cur in g.edges ==> ExpandInv(g, start, seed, end, cur, popped, popped, explored, rank, counter, 0))
      && (start in g.edges && Closed(g) ==> cur in g.edges)
  {
    var cur := st.frontier[0];
    assert forall v :: v in st.frontier ==> v == cur || v in st.frontier[1..];
  }

  /** The invariant of the outer loop of `find_path`. */
  ghost predicate SearchInv(g: Graph, start: string, seed: set<string>, end: string, st: State, explored: set<string>,
                            rank: map<string, nat>, counter: nat)
  {
    && Crumbs(g, start, seed, st, rank, counter)
    && Covered(g, start, seed, end, st, explored, None)
    && (start !in g.edges ==> st.frontier == [start] && explored == {})
  }

  /** The goal turned up among the neighbours: retracing is sound, and it
      can only miss a breadcrumb when the goal is a seeded name. */
  lemma FoundGoal(g: Graph, start: string, seed: set<string>, end: string, st: State, rank: map<string, nat>, counter: nat)
    requires Crumbs(g, start, seed, st, rank, counter) && end in st.observed
    ensures Breadcrumbs(g, st.paths, start, rank)
    ensures end == start || end in rank || end !in st.paths
    ensures (Linked(st.paths, start) && (end == start || end in st.paths)) || (end in seed && end != start)
    ensures end in seed ==> end !in st.paths
  {
  }

  lemma SearchStart(g: Graph, start: string, seed: set<string>, end: string)
    ensures SearchInv(g, start, seed, end, State([start], seed, map[]), {}, map[start := 0], 1)
  {
  }

  /** One round of the outer loop: pop `cur`, expand it, and the invariant
      holds again with `cur` expanded; the search measure went down. */
  lemma SearchStep(g: Graph, start: string, seed: set<string>, end: string, st: State, st': State, explored: set<string>,
                   rank: map<string, nat>, counter: nat, rank': map<string, nat>, counter': nat)
    requires st.frontier != [] && st.frontier[0] in g.edges
    requires SearchInv(g, start, seed, end, st, explored, rank, counter)
    requires var popped := State(st.frontier[1..], st.observed, st.paths);
      ExpandInv(g, start, seed, end, st.frontier[0], popped, st', explored, rank', counter', |g.edges[st.frontier[0]]|)
    ensures SearchInv(g, start, seed, end, st', explored + {st.frontier[0]}, rank', counter')
    ensures st'.observed != st.observed ==> |Names(g) - st'.observed| < |Names(g) - st.observed|
    ensures st'.observed == st.observed ==> |st'.frontier| < |st.frontier|
  {
    var cur := st.frontier[0];
    var popped := State(st.frontier[1..], st.observed, st.paths);
    ExpandDone(g, start, seed, end, cur, popped, st', explored, rank', counter');
    if st'.observed != st.observed {
      ObservedGrows(Names(g), st.observed, st'.observed);
    }
  }

  /** The loop of `BFS.find_path` with the observed set starting as `seed`.
      The result is the solution path, `[]` when the frontier runs dry, or
      the missing key the source trips over. */
  method Search(g: Graph, start: string, seed: set<string>, end: string) returns (r: Result<seq<string>>)
    ensures start !in g.edges ==> r == Failure(KeyError)
    ensures r.Failure? ==>
      && r.error == KeyError
      && (start !in g.edges || !Closed(g) || (end in seed && end != start))
    ensures r.Success? && r.value != [] ==>
      r.value[0] == start && r.value[|r.value| - 1] == end && IsPath(g, r.value)
    ensures r == Success([]) ==> forall p :: SeedFreePath(g, start, seed, p) ==> p[|p| - 1] != end
    ensures end in seed && end != start ==> r.Failure? || r == Success([])
  {
    var st := State([start], seed, map[]);
    ghost var explored: set<string> := {};
    ghost var rank: map<string, nat> := map[start := 0];
    ghost var counter: nat := 1;
    SearchStart(g, start, seed, end);
    while st.frontier != []
      invariant SearchInv(g, start, seed, end, st, explored, rank, counter)
      decreases |Names(g) - st.observed|, |st.frontier|
    {
      var cur := st.frontier[0];
      var popped := State(st.frontier[1..], st.observed, st.paths);
      PopKeeps(g, start, seed, end, st, explored, rank, counter);
      if cur !in g.edges {
        return Failure(KeyError);
      }
      var st', found, rank', counter' := Expand(g, start, seed, end, cur, popped, explored, rank, counter);
      if found {
        FoundGoal(g, start, seed, end, st', rank', counter');
        r := Retrace(g, st'.paths, start, end, rank');
        return;
      }
      SearchStep(g, start, seed, end, st, st', explored, rank, counter, rank', counter');
      st, explored, rank, counter := st', explored + {cur}, rank', counter';
    }
    FrontierEmpty(g, start, seed, end, st, explored, rank, counter);
    return Success([]);
  }

  /** `BFS.find_path` as written, seeding the observed set with
      `set(start_node)`: it never returns a path to a node named by one of the
      start's characters, and its `[]` only rules out paths avoiding them. */
  method FindPath(g: Graph, start: string, end: string) returns (r: Result<seq<string>>)
    ensures start !in g.edges ==> r == Failure(KeyError)
    ensures r.Failure? ==>
      && r.error == KeyError
      && (start !in g.edges || !Closed(g) || (end in Seed(start) && end != start))
    ensures r.Success? && r.value != [] ==>
      r.value[0] == start && r.value[|r.value| - 1] == end && IsPath(g, r.value)
    ensures r == Success([]) ==> forall p :: SeedFreePath(g, start, Seed(start), p) ==> p[|p| - 1] != end
    ensures end in Seed(start) && end != start ==> r.Failure? || r == Success([])
  {
    r := Search(g, start, Seed(start), end);
  }

  /** `find_path` seeding the observed set with `{start_node}`: a `KeyError`
      only for a missing start or an open graph, and `[]` only when no path
      of one or more edges leads from the start to the goal. */
  method FindPathFixed(g: Graph, start: string, end: string) returns (r: Result<seq<string>>)
    ensures start !in g.edges ==> r == Failure(KeyError)
    ensures r.Failure? ==> r.error == KeyError && (start !in g.edges || !Closed(g))
    ensures r.Success? && r.value != [] ==>
      r.value[0] == start && r.value[|r.value| - 1] == end && IsPath(g, r.value)
    ensures r == Success([]) ==>
      forall p :: |p| >= 2 && p[0] == start && IsPath(g, p) ==> p[|p| - 1] != end
  {
    r := Search(g, start, {start}, end);
    if r == Success([]) {
      forall p | |p| >= 2 && p[0] == start && IsPath(g, p)
        ensures p[|p| - 1] != end
      {
        var q := LastDeparture(g, start, p);
      }
    }
  }

  /** Cutting a path at its last departure from the start leaves a path whose
      inner nodes all differ from the start, with the same last node. */
  lemma LastDeparture(g: Graph, start: string, p: seq<string>) returns (q: seq<string>)
    requires |p| >= 2 && p[0] == start && IsPath(g, p)
    ensures SeedFreePath(g, start, {start}, q) && q[|q| - 1] == p[|p| - 1]
  {
    var k := |p| - 2;
    while p[k] != start
      invariant 0 <= k <= |p| - 2
      invariant forall i :: k < i < |p| - 1 ==> p[i] != start
      decreases k
    {
      k := k - 1;
    }
    q := p[k..];
    forall i | 0 <= i < |q| - 1 ensures IsEdge(g, q[i], q[i + 1]) {
      assert q[i] == p[k + i] && q[i + 1] == p[k + i + 1];
    }
    forall i | 1 <= i < |q| - 1 ensures q[i] !in {start} {
      assert q[i] == p[k + i];
    }
  }

  /** The graph `ab -> b`: the start's own character names the goal. */
  function SeedGraph(): Graph
  {
    Graph(["ab", "b"], map["ab" := [("b", 1)], "b" := []])
  }

  /** On `ab -> b` the search as written raises `KeyError` looking for the
      goal's breadcrumb, though the goal is one edge away; seeded with the
      start itself it returns that edge. */
  method SeedMiss() returns (r: Result<seq<string>>, fixed: Result<seq<string>>)
    ensures IsPath(SeedGraph(), ["ab", "b"])
    ensures r == Failure(KeyError)
    ensures fixed == Success(["ab", "b"])
  {
    var g := SeedGraph();
    assert IsEdge(g, "ab", "b") by {
      assert g.edges["ab"][0].0 == "b";
    }
    assert "b" in Seed("ab") by {
      assert "ab"[1] == 'b';
    }
    assert SeedFreePath(g, "ab", Seed("ab"), ["ab", "b"]);
    r := FindPath(g, "ab", "b");
    fixed := FindPathFixed(g, "ab", "b");
    assert Closed(g);
    assert fixed != Success([]) by {
      assert |["ab", "b"]| >= 2;
    }
    OnlyPath(fixed.value);
  }

  /** The only path from `ab` to `b` in `SeedGraph` is the edge itself. */
  lemma OnlyPath(p: seq<string>)
    requires |p| >= 1 && p[0] == "ab" && p[|p| - 1] == "b" && IsPath(SeedGraph(), p)
    ensures p == ["ab", "b"]
  {
    var g := SeedGraph();
    assert |p| >= 2;
    assert IsEdge(g, p[0], p[1]);
    assert p[1] == "b";
    NoEdgeFrom("b", if |p| > 2 then p[2] else "");
  }

  lemma NoEdgeFrom(a: string, b: string)
    requires a == "b"
    ensures !IsEdge(SeedGraph(), a, b)
  {
  }

  /** The queue ran dry: the expanded region is closed, so no seed-free path
      from the start reaches the goal. */
  lemma FrontierEmpty(g: Graph, start: string, seed: set<string>, end: string, st: State, explored: set<string>,
                      rank: map<string, nat>, counter: nat)
    requires SearchInv(g, start, seed, end, st, explored, rank, counter) && st.frontier == []
    ensures forall p :: SeedFreePath(g, start, seed, p) ==> p[|p| - 1] != end
  {
    forall p | SeedFreePath(g, start, seed, p)
      ensures p[|p| - 1] != end
    {
      ClosedRegion(g, start, seed, end, explored, st.observed, p);
    }
  }

  /** When every neighbour of an explored node is observed and none is the
      goal, and everything observed is explored or seeded, no seed-free path
      from the start ends at the goal. */
  lemma ClosedRegion(g: Graph, start: string, seed: set<string>, end: string, explored: set<string>, observed: set<string>, p: seq<string>)
    requires start in explored
    requires forall x :: x in explored ==> Expanded(g, x, observed, end)
    requires forall v :: v in observed ==> v in seed || v in explored
    requires SeedFreePath(g, start, seed, p)
    ensures p[|p| - 1] != end
  {
    var k := 0;
    while k < |p| - 2
      invariant 0 <= k <= |p| - 2
      invariant p[k] in explored
    {
      assert IsEdge(g, p[k], p[k + 1]);
      var i :| 0 <= i < |g.edges[p[k]]| && g.edges[p[k]][i].0 == p[k + 1];
      k := k + 1;
    }
    assert IsEdge(g, p[k], p[k + 1]);
  }
}
