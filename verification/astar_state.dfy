/**
 * The state of the best-first search behind `Astar.find_path`, the order
 * its priority queue follows, and the invariant its loop keeps, with one
 * lemma per step of the loop showing the step keeps it.
 */
module AstarState {
  import opened Wrappers
  import opened Deg
  import opened Trace

  /** A queue entry `(tot_cost, path_cost, node)`. */
  datatype Entry = Entry(tot: int, g: int, name: string)

  /** Python's `<=` on strings: lexicographic by code point, a proper
      prefix first. */
  predicate StrLe(a: string, b: string)
  {
    a == [] || (b != [] && (a[0] < b[0] || (a[0] == b[0] && StrLe(a[1..], b[1..]))))
  }

  lemma {:induction false} StrLeTotal(a: string, b: string)
    ensures StrLe(a, b) || StrLe(b, a)
  {
    if a != [] && b != [] && a[0] == b[0] {
      StrLeTotal(a[1..], b[1..]);
    }
  }

  lemma {:induction false} StrLeTrans(a: string, b: string, c: string)
    requires StrLe(a, b) && StrLe(b, c)
    ensures StrLe(a, c)
  {
    if a != [] && b != [] && c != [] && a[0] == b[0] && b[0] == c[0] {
      StrLeTrans(a[1..], b[1..], c[1..]);
    }
  }

  lemma {:induction false} StrLeAntisym(a: string, b: string)
    requires StrLe(a, b) && StrLe(b, a)
    ensures a == b
  {
    if a != [] && b != [] {
      StrLeAntisym(a[1..], b[1..]);
      assert a == [a[0]] + a[1..] && b == [b[0]] + b[1..];
    }
  }

  /** Tuple order on entries, the order `PriorityQueue.get` follows. */
  predicate EntryLe(a: Entry, b: Entry)
  {
    a.tot < b.tot || (a.tot == b.tot && (a.g < b.g || (a.g == b.g && StrLe(a.name, b.name))))
  }

  lemma EntryLeTotal(a: Entry, b: Entry)
    ensures EntryLe(a, b) || EntryLe(b, a)
  {
    StrLeTotal(a.name, b.name);
  }

  lemma EntryLeTrans(a: Entry, b: Entry, c: Entry)
    requires EntryLe(a, b) && EntryLe(b, c)
    ensures EntryLe(a, c)
  {
    if a.tot == b.tot == c.tot && a.g == b.g == c.g {
      StrLeTrans(a.name, b.name, c.name);
    }
  }

  /** The order is antisymmetric, so the least entry of a queue is unique
      and the pop is deterministic. */
  lemma EntryLeAntisym(a: Entry, b: Entry)
    requires EntryLe(a, b) && EntryLe(b, a)
    ensures a == b
  {
    StrLeAntisym(a.name, b.name);
  }

  predicate IsMin(e: Entry, m: multiset<Entry>)
  {
    e in m && forall x :: x in m ==> EntryLe(e, x)
  }

  /** A non-empty queue has a least entry, and only one. */
  lemma {:induction false} MinExists(m: multiset<Entry>)
    requires m != multiset{}
    ensures exists e :: IsMin(e, m)
    ensures forall e, e' :: IsMin(e, m) && IsMin(e', m) ==> e == e'
    decreases |m|
  {
    var x :| x in m;
    var rest := m - multiset{x};
    if rest == multiset{} {
      assert m == rest + multiset{x};
      EntryLeTotal(x, x);
      assert IsMin(x, m);
    } else {
      MinExists(rest);
      var y :| IsMin(y, rest);
      EntryLeTotal(x, y);
      if EntryLe(x, y) {
        forall z | z in m
          ensures EntryLe(x, z)
        {
          if z != x {
            assert z in rest;
            EntryLeTrans(x, y, z);
          } else {
            EntryLeTotal(x, x);
          }
        }
        assert IsMin(x, m);
      } else {
        forall z | z in m
          ensures EntryLe(y, z)
        {
          if z == x {
          } else {
            assert z in rest;
          }
        }
        assert IsMin(y, m);
      }
    }
    forall e, e' | IsMin(e, m) && IsMin(e', m)
      ensures e == e'
    {
      EntryLeAntisym(e, e');
    }
  }

  /** The search state: the queue, the explored set, `best_cost`,
      `path_cost` and the back-pointers `paths`. */
  datatype Search = Search(
    frontier: multiset<Entry>,
    explored: set<string>,
    best: map<string, int>,
    pathCost: map<string, int>,
    paths: map<string, string>)

  /** What `find_path` returns: the path with the explored set, or `[]`. */
  datatype Outcome = Found(path: seq<string>, explored: set<string>) | NotFound

  /** Looking at one neighbour `w`, reached from the entry `cur` over an edge
      of cost `d`: it is pushed when it is unexplored and its f-value is new
      or strictly better than the best one recorded. */
  function Relax(st: Search, h: string -> int, cur: Entry, w: string, d: int): Search
  {
    var newCost := cur.g + d;
    var tot := newCost + h(w);
    if w !in st.explored && (w !in st.best || tot < st.best[w]) then
      Search(st.frontier + multiset{Entry(tot, newCost, w)}, st.explored,
             st.best[w := tot], st.pathCost[w := newCost], st.paths[w := cur.name])
    else st
  }

  /** Edge `(w, d)` out of a node popped at path cost `gc` needs nothing more:
      `w` is explored, or already has an f-value at least as good. */
  predicate Settled(st: Search, h: string -> int, gc: int, w: string, d: int)
  {
    w in st.explored || (w in st.best && st.best[w] <= gc + d + h(w))
  }

  /** The heuristic never drops by more than an edge's cost: then the
      f-values of popped entries never decrease. */
  predicate Consistent(g: Graph, h: string -> int)
  {
    forall n, i :: n in g.edges && 0 <= i < |g.edges[n]| ==> h(n) <= g.edges[n][i].1 + h(g.edges[n][i].0)
  }

  function NamesOf(m: multiset<Entry>): set<string>
  {
    set e | e in m :: e.name
  }

  /** Every edge out of node `n` is settled at path cost `gc`. */
  predicate AllSettled(g: Graph, h: string -> int, st: Search, gc: int, n: string)
  {
    n in g.edges && forall i :: 0 <= i < |g.edges[n]| ==> Settled(st, h, gc, g.edges[n][i].0, g.edges[n][i].1)
  }

  /** The entries popped so far carry f = g + h; with a consistent heuristic
      they come out in non-decreasing f order and no queued entry is below
      the last one. */
  ghost predicate PopsOk(g: Graph, h: string -> int, pops: seq<Entry>, frontier: multiset<Entry>)
  {
    && (forall i :: 0 <= i < |pops| ==> pops[i].tot == pops[i].g + h(pops[i].name))
    && (Consistent(g, h) ==>
         && (forall i, j :: 0 <= i < j < |pops| ==> pops[i].tot <= pops[j].tot)
         && (pops != [] ==> forall e :: e in frontier ==> pops[|pops| - 1].tot <= e.tot))
  }

  /** The breadcrumbs and the ranks: `rank` numbers the explored nodes in
      the order they were first popped, and every breadcrumb leads back to an
      explored node. */
  ghost predicate Crumbs(g: Graph, start: string, end: string, st: Search, rank: map<string, nat>, counter: nat)
  {
    && Breadcrumbs(g, st.paths, start, rank)
    && rank.Keys == st.explored
    && (forall k :: k in rank ==> rank[k] < counter)
    && (forall k :: k in st.paths ==> st.paths[k] in st.explored && k in Names(g) && k != start)
    && (forall x :: x in st.explored ==> (x == start || x in st.paths) && x in g.edges)
    && end !in st.explored
  }

  /** Every queued entry is for the start or a node with a breadcrumb, and
      carries f = g + h; before the first pop the queue holds only the
      start. */
  ghost predicate Front(h: string -> int, start: string, st: Search)
  {
    && (start in st.explored ||
        (st.explored == {} && st.paths == map[] && st.frontier == multiset{Entry(h(start), 0, start)}))
    && (forall e :: e in st.frontier ==> (e.name == start || e.name in st.paths) && e.tot == e.g + h(e.name))
  }

  /** `best_cost` covers only explored or queued nodes and agrees with
      `path_cost` plus the heuristic. */
  ghost predicate BestOk(h: string -> int, st: Search)
  {
    && (forall n :: n in st.best ==> n in st.explored || n in NamesOf(st.frontier))
    && (forall n :: n in st.best ==> n in st.pathCost && st.best[n] == st.pathCost[n] + h(n))
  }

  /** The bookkeeping invariant of the search loop. */
  ghost predicate Core(g: Graph, h: string -> int, start: string, end: string, st: Search,
                       rank: map<string, nat>, counter: nat, pops: seq<Entry>)
  {
    Crumbs(g, start, end, st, rank, counter) && Front(h, start, st) && BestOk(h, st) && PopsOk(g, h, pops, st.frontier)
  }

  /** Queued entries of explored nodes (other than `skip`) would push nothing
      if popped again. */
  ghost predicate Stale(g: Graph, h: string -> int, st: Search, skip: Option<string>)
  {
    forall e :: e in st.frontier && e.name in st.explored && Some(e.name) != skip ==>
      AllSettled(g, h, st, e.g, e.name)
  }

  /** Every neighbour of an explored node (other than `skip`) is explored or
      has been given an f-value. */
  ghost predicate Closure(g: Graph, st: Search, skip: Option<string>)
  {
    forall x :: x in st.explored && Some(x) != skip ==>
      x in g.edges && forall i :: 0 <= i < |g.edges[x]| ==> g.edges[x][i].0 in st.explored || g.edges[x][i].0 in st.best
  }

  ghost predicate Inv(g: Graph, h: string -> int, start: string, end: string, st: Search,
                      rank: map<string, nat>, counter: nat, pops: seq<Entry>)
  {
    Core(g, h, start, end, st, rank, counter, pops) && Stale(g, h, st, None) && Closure(g, st, None)
  }

  /** The invariant of the neighbour loop after `i` neighbours of the
      popped entry `cur`, started from state `st0`. */
  ghost predicate ExpInv(g: Graph, h: string -> int, start: string, end: string, cur: Entry, st0: Search, st: Search,
                         rank: map<string, nat>, counter: nat, pops: seq<Entry>, i: int)
  {
    && Core(g, h, start, end, st, rank, counter, pops)
    && Stale(g, h, st, Some(cur.name)) && Closure(g, st, Some(cur.name))
    && cur.name in st.explored && cur.name in g.edges && 0 <= i <= |g.edges[cur.name]|
    && cur.tot == cur.g + h(cur.name) && pops != [] && pops[|pops| - 1] == cur
    && (forall e :: e in st.frontier && e.name == cur.name ==> cur.g <= e.g)
    && (forall j :: 0 <= j < i ==> Settled(st, h, cur.g, g.edges[cur.name][j].0, g.edges[cur.name][j].1))
    && (AllSettled(g, h, st0, cur.g, cur.name) ==> st == st0)
    && st.explored == st0.explored
  }

  /** Settling survives a step that keeps the explored set and only lowers
      f-values. */
  lemma SettledMono(st: Search, st': Search, h: string -> int, gc: int, gc': int, w: string, d: int)
    requires Settled(st, h, gc, w, d) && gc <= gc'
    requires st.explored <= st'.explored
    requires forall n :: n in st.best ==> n in st'.best && st'.best[n] <= st.best[n]
    ensures Settled(st', h, gc', w, d)
  {
  }

  /** What one `Relax` can change: it keeps the explored set, only lowers
      f-values, and either changes nothing or pushes one entry for an
      unexplored `w`. */
  lemma RelaxFacts(st: Search, h: string -> int, cur: Entry, w: string, d: int)
    ensures var st' := Relax(st, h, cur, w, d);
      && st'.explored == st.explored
      && (forall n :: n in st.best ==> n in st'.best && st'.best[n] <= st.best[n])
      && (st' == st || w !in st.explored)
      && (st' != st ==>
           && st'.frontier == st.frontier + multiset{Entry(cur.g + d + h(w), cur.g + d, w)}
           && st'.best == st.best[w := cur.g + d + h(w)]
           && st'.pathCost == st.pathCost[w := cur.g + d]
           && st'.paths == st.paths[w := cur.name])
      && Settled(st', h, cur.g, w, d)
  {
  }

  lemma RelaxCrumbs(g: Graph, start: string, end: string, cur: Entry, st: Search, h: string -> int,
                    rank: map<string, nat>, counter: nat, i: int)
    requires Crumbs(g, start, end, st, rank, counter) && start in st.explored
    requires cur.name in st.explored && cur.name in g.edges && 0 <= i < |g.edges[cur.name]|
    ensures var (w, d) := g.edges[cur.name][i];
      Crumbs(g, start, end, Relax(st, h, cur, w, d), rank, counter)
  {
    var (w, d) := g.edges[cur.name][i];
    var st' := Relax(st, h, cur, w, d);
    RelaxFacts(st, h, cur, w, d);
    if st' != st {
      assert IsEdge(g, cur.name, w) by {
        assert g.edges[cur.name][i].0 == w;
      }
      assert w in Names(g);
      assert w !in rank && w != start;
      assert Breadcrumbs(g, st'.paths, start, rank);
    }
  }

  lemma RelaxFront(g: Graph, start: string, cur: Entry, st: Search, h: string -> int, i: int)
    requires Front(h, start, st)
    requires cur.name in st.explored && cur.name in g.edges && 0 <= i < |g.edges[cur.name]|
    ensures var (w, d) := g.edges[cur.name][i];
      Front(h, start, Relax(st, h, cur, w, d))
  {
    var (w, d) := g.edges[cur.name][i];
    var st' := Relax(st, h, cur, w, d);
    RelaxFacts(st, h, cur, w, d);
    if st' != st {
      var e := Entry(cur.g + d + h(w), cur.g + d, w);
      assert forall x :: x in st'.frontier ==> x in st.frontier || x == e;
    }
  }

  lemma RelaxBest(cur: Entry, st: Search, h: string -> int, w: string, d: int)
    requires BestOk(h, st)
    ensures BestOk(h, Relax(st, h, cur, w, d))
  {
    var st' := Relax(st, h, cur, w, d);
    RelaxFacts(st, h, cur, w, d);
    if st' != st {
      var e := Entry(cur.g + d + h(w), cur.g + d, w);
      assert e.name in NamesOf(st'.frontier);
      assert forall x :: x in st.frontier ==> x in st'.frontier;
    }
  }

  lemma RelaxPops(g: Graph, h: string -> int, cur: Entry, st: Search, pops: seq<Entry>, i: int)
    requires PopsOk(g, h, pops, st.frontier)
    requires cur.name in g.edges && 0 <= i < |g.edges[cur.name]|
    requires cur.tot == cur.g + h(cur.name) && pops != [] && pops[|pops| - 1] == cur
    ensures var (w, d) := g.edges[cur.name][i];
      PopsOk(g, h, pops, Relax(st, h, cur, w, d).frontier)
  {
    var (w, d) := g.edges[cur.name][i];
    var st' := Relax(st, h, cur, w, d);
    RelaxFacts(st, h, cur, w, d);
    if st' != st && Consistent(g, h) {
      var e := Entry(cur.g + d + h(w), cur.g + d, w);
      assert h(cur.name) <= d + h(w);
      assert forall x :: x in st'.frontier ==> x in st.frontier || x == e;
    }
  }

  lemma RelaxCore(g: Graph, h: string -> int, start: string, end: string, cur: Entry, st: Search,
                  rank: map<string, nat>, counter: nat, pops: seq<Entry>, i: int)
    requires Core(g, h, start, end, st, rank, counter, pops)
    requires cur.name in st.explored && cur.name in g.edges && 0 <= i < |g.edges[cur.name]|
    requires cur.tot == cur.g + h(cur.name) && pops != [] && pops[|pops| - 1] == cur
    ensures var (w, d) := g.edges[cur.name][i];
      Core(g, h, start, end, Relax(st, h, cur, w, d), rank, counter, pops)
  {
    var (w, d) := g.edges[cur.name][i];
    RelaxCrumbs(g, start, end, cur, st, h, rank, counter, i);
    RelaxFront(g, start, cur, st, h, i);
    RelaxBest(cur, st, h, w, d);
    RelaxPops(g, h, cur, st, pops, i);
  }

  lemma RelaxStale(g: Graph, h: string -> int, cur: Entry, st: Search, skip: Option<string>, w: string, d: int)
    requires Stale(g, h, st, skip)
    ensures Stale(g, h, Relax(st, h, cur, w, d), skip)
  {
    var st' := Relax(st, h, cur, w, d);
    RelaxFacts(st, h, cur, w, d);
    forall e | e in st'.frontier && e.name in st'.explored && Some(e.name) != skip
      ensures AllSettled(g, h, st', e.g, e.name)
    {
      assert e in st.frontier;
      forall k | 0 <= k < |g.edges[e.name]|
        ensures Settled(st', h, e.g, g.edges[e.name][k].0, g.edges[e.name][k].1)
      {
        SettledMono(st, st', h, e.g, e.g, g.edges[e.name][k].0, g.edges[e.name][k].1);
      }
    }
  }

  lemma RelaxPrefix(g: Graph, h: string -> int, cur: Entry, st: Search, i: int)
    requires cur.name in g.edges && 0 <= i < |g.edges[cur.name]|
    requires forall j :: 0 <= j < i ==> Settled(st, h, cur.g, g.edges[cur.name][j].0, g.edges[cur.name][j].1)
    ensures var (w, d) := g.edges[cur.name][i];
      var st' := Relax(st, h, cur, w, d);
      forall j :: 0 <= j <= i ==> Settled(st', h, cur.g, g.edges[cur.name][j].0, g.edges[cur.name][j].1)
  {
    var (w, d) := g.edges[cur.name][i];
    var st' := Relax(st, h, cur, w, d);
    RelaxFacts(st, h, cur, w, d);
    forall j | 0 <= j < i
      ensures Settled(st', h, cur.g, g.edges[cur.name][j].0, g.edges[cur.name][j].1)
    {
      SettledMono(st, st', h, cur.g, cur.g, g.edges[cur.name][j].0, g.edges[cur.name][j].1);
    }
  }

  lemma RelaxStep(g: Graph, h: string -> int, start: string, end: string, cur: Entry, st0: Search, st: Search,
                  rank: map<string, nat>, counter: nat, pops: seq<Entry>, i: int)
    requires ExpInv(g, h, start, end, cur, st0, st, rank, counter, pops, i)
    requires i < |g.edges[cur.name]|
    ensures var (w, d) := g.edges[cur.name][i];
      ExpInv(g, h, start, end, cur, st0, Relax(st, h, cur, w, d), rank, counter, pops, i + 1)
  {
    var (w, d) := g.edges[cur.name][i];
    RelaxFacts(st, h, cur, w, d);
    RelaxCore(g, h, start, end, cur, st, rank, counter, pops, i);
    RelaxStale(g, h, cur, st, Some(cur.name), w, d);
    RelaxPrefix(g, h, cur, st, i);
    if AllSettled(g, h, st0, cur.g, cur.name) {
      assert Settled(st, h, cur.g, w, d);
    }
  }

  /** After the neighbour loop every edge of `cur` is settled, so its queued
      entries are stale and its neighbours are covered. */
  lemma ExpandDone(g: Graph, h: string -> int, start: string, end: string, cur: Entry, st0: Search, st: Search,
                   rank: map<string, nat>, counter: nat, pops: seq<Entry>)
    requires cur.name in g.edges
    requires ExpInv(g, h, start, end, cur, st0, st, rank, counter, pops, |g.edges[cur.name]|)
    ensures Inv(g, h, start, end, st, rank, counter, pops)
  {
    forall e | e in st.frontier && e.name in st.explored
      ensures AllSettled(g, h, st, e.g, e.name)
    {
      if e.name == cur.name {
        forall j | 0 <= j < |g.edges[cur.name]|
          ensures Settled(st, h, e.g, g.edges[cur.name][j].0, g.edges[cur.name][j].1)
        {
          SettledMono(st, st, h, cur.g, e.g, g.edges[cur.name][j].0, g.edges[cur.name][j].1);
        }
      }
    }
  }

  /** Taking the least entry keeps the popped f-values in order. */
  lemma PopPops(g: Graph, h: string -> int, pops: seq<Entry>, frontier: multiset<Entry>, cur: Entry)
    requires PopsOk(g, h, pops, frontier) && IsMin(cur, frontier) && cur.tot == cur.g + h(cur.name)
    ensures PopsOk(g, h, pops + [cur], frontier - multiset{cur})
  {
    var pops' := pops + [cur];
    if Consistent(g, h) {
      forall i, j | 0 <= i < j < |pops'|
        ensures pops'[i].tot <= pops'[j].tot
      {
        if j == |pops| && i < |pops| - 1 {
          assert pops[i].tot <= pops[|pops| - 1].tot;
        }
      }
      forall e | e in frontier - multiset{cur}
        ensures cur.tot <= e.tot
      {
        assert EntryLe(cur, e);
      }
    }
  }

  /** The state right after popping `cur`: it leaves the queue and joins
      the explored set. */
  function Popped(st: Search, cur: Entry): Search
  {
    Search(st.frontier - multiset{cur}, st.explored + {cur.name}, st.best, st.pathCost, st.paths)
  }

  /** The rank map after popping `cur`: a node keeps its first rank. */
  function Ranked(rank: map<string, nat>, cur: Entry, counter: nat): map<string, nat>
  {
    if cur.name in rank then rank else rank[cur.name := counter]
  }

  lemma PopCrumbs(g: Graph, h: string -> int, start: string, end: string, st: Search,
                  rank: map<string, nat>, counter: nat, cur: Entry)
    requires Crumbs(g, start, end, st, rank, counter) && Front(h, start, st)
    requires cur in st.frontier && cur.name != end && cur.name in g.edges
    ensures Crumbs(g, start, end, Popped(st, cur), Ranked(rank, cur, counter), counter + 1)
  {
    var rank' := Ranked(rank, cur, counter);
    forall k | k in st.paths
      ensures k != start && k in rank' ==> st.paths[k] in rank' && rank'[st.paths[k]] < rank'[k]
    {
    }
  }

  lemma PopFront(h: string -> int, start: string, st: Search, cur: Entry)
    requires Front(h, start, st) && cur in st.frontier
    ensures Front(h, start, Popped(st, cur))
    ensures start in Popped(st, cur).explored
  {
  }

  lemma PopBest(h: string -> int, st: Search, cur: Entry)
    requires BestOk(h, st) && cur in st.frontier
    ensures BestOk(h, Popped(st, cur))
  {
    var st' := Popped(st, cur);
    forall n | n in st.best
      ensures n in st'.explored || n in NamesOf(st'.frontier)
    {
      if n !in st.explored && n != cur.name {
        var e :| e in st.frontier && e.name == n;
        assert e in st'.frontier;
      }
    }
  }

  lemma PopStale(g: Graph, h: string -> int, st: Search, cur: Entry)
    requires Stale(g, h, st, None) && cur in st.frontier
    ensures Stale(g, h, Popped(st, cur), Some(cur.name))
    ensures cur.name in st.explored ==> AllSettled(g, h, Popped(st, cur), cur.g, cur.name)
  {
    var st' := Popped(st, cur);
    forall e | e in st'.frontier && e.name in st.explored
      ensures AllSettled(g, h, st', e.g, e.name)
    {
      assert e in st.frontier;
      forall k | 0 <= k < |g.edges[e.name]|
        ensures Settled(st', h, e.g, g.edges[e.name][k].0, g.edges[e.name][k].1)
      {
        SettledMono(st, st', h, e.g, e.g, g.edges[e.name][k].0, g.edges[e.name][k].1);
      }
    }
    if cur.name in st.explored {
      forall k | 0 <= k < |g.edges[cur.name]|
        ensures Settled(st', h, cur.g, g.edges[cur.name][k].0, g.edges[cur.name][k].1)
      {
        SettledMono(st, st', h, cur.g, cur.g, g.edges[cur.name][k].0, g.edges[cur.name][k].1);
      }
    }
  }

  /** Popping a non-goal entry whose node has neighbours sets up the
      neighbour loop; a node popped again has nothing left to push. */
  lemma PopStep(g: Graph, h: string -> int, start: string, end: string, st: Search,
                rank: map<string, nat>, counter: nat, pops: seq<Entry>, cur: Entry)
    requires Inv(g, h, start, end, st, rank, counter, pops)
    requires IsMin(cur, st.frontier) && cur.name != end && cur.name in g.edges
    ensures var st0 := Popped(st, cur);
      && ExpInv(g, h, start, end, cur, st0, st0, Ranked(rank, cur, counter), counter + 1, pops + [cur], 0)
      && (cur.name in st.explored ==> AllSettled(g, h, st0, cur.g, cur.name))
  {
    var st0 := Popped(st, cur);
    PopCrumbs(g, h, start, end, st, rank, counter, cur);
    PopFront(h, start, st, cur);
    PopBest(h, st, cur);
    PopPops(g, h, pops, st.frontier, cur);
    PopStale(g, h, st, cur);
    forall e | e in st0.frontier && e.name == cur.name
      ensures cur.g <= e.g
    {
      assert EntryLe(cur, e);
    }
  }

  /** Until the start is explored the queue holds only its first entry. */
  lemma FirstPop(g: Graph, h: string -> int, start: string, end: string, st: Search,
                 rank: map<string, nat>, counter: nat, pops: seq<Entry>, cur: Entry)
    requires Core(g, h, start, end, st, rank, counter, pops) && cur in st.frontier
    requires start == end || start !in g.edges
    ensures st.explored == {} && cur == Entry(h(start), 0, start)
    ensures Popped(st, cur).explored == {start}
  {
  }

  /** Popping the goal: retracing its breadcrumbs reaches the start. */
  lemma FoundGoal(g: Graph, h: string -> int, start: string, end: string, st: Search,
                  rank: map<string, nat>, counter: nat, pops: seq<Entry>, cur: Entry)
    requires Core(g, h, start, end, st, rank, counter, pops) && cur in st.frontier && cur.name == end
    ensures Breadcrumbs(g, st.paths, start, rank[end := counter])
    ensures end in rank[end := counter]
    ensures Linked(st.paths, start) && (end == start || end in st.paths)
    ensures start in Popped(st, cur).explored
  {
    var rank' := rank[end := counter];
    forall k | k in st.paths
      ensures k != start && k in rank' ==> st.paths[k] in rank' && rank'[st.paths[k]] < rank'[k]
    {
    }
  }

  /** A node without neighbours reached by the search is the start, unless
      some edge leads outside the graph. */
  lemma MissingNode(g: Graph, h: string -> int, start: string, end: string, st: Search,
                    rank: map<string, nat>, counter: nat, pops: seq<Entry>, cur: Entry)
    requires Core(g, h, start, end, st, rank, counter, pops) && cur in st.frontier
    requires cur.name != end && cur.name !in g.edges
    ensures start != end && (start !in g.edges || !Closed(g))
  {
    if start == end {
      FirstPop(g, h, start, end, st, rank, counter, pops, cur);
    }
    if Closed(g) && cur.name != start {
      ClosedNames(g);
    }
  }

  /** An empty queue: the explored nodes contain the start and are closed
      under edges, and the goal is not among them, so no path leads from the
      start to the goal. */
  lemma Exhausted(g: Graph, h: string -> int, start: string, end: string, st: Search,
                  rank: map<string, nat>, counter: nat, pops: seq<Entry>)
    requires Inv(g, h, start, end, st, rank, counter, pops) && st.frontier == multiset{}
    ensures start in g.edges && start != end
    ensures forall p :: |p| >= 1 && p[0] == start && IsPath(g, p) ==> p[|p| - 1] != end
  {
    forall x, y | x in st.explored && IsEdge(g, x, y)
      ensures y in st.explored
    {
      var i :| 0 <= i < |g.edges[x]| && g.edges[x][i].0 == y;
      assert y in st.explored || y in st.best;
    }
    forall p | |p| >= 1 && p[0] == start && IsPath(g, p)
      ensures p[|p| - 1] != end
    {
      PathInside(g, st.explored, p);
    }
  }

  /** What `find_path` promises about its answer. */
  ghost predicate Answer(g: Graph, start: string, end: string, r: Result<Outcome>)
  {
    && (r.Failure? ==> r.error == KeyError && start != end && (start !in g.edges || !Closed(g)))
    && (start == end ==> r == Success(Found([start], {start})))
    && (start !in g.edges && start != end ==> r == Failure(KeyError))
    && (r.Success? && r.value.Found? ==>
         var p := r.value.path;
         && |p| >= 1 && p[0] == start && p[|p| - 1] == end && IsPath(g, p)
         && start in r.value.explored && end in r.value.explored)
    && (r == Success(NotFound) ==>
         forall p :: |p| >= 1 && p[0] == start && IsPath(g, p) ==> p[|p| - 1] != end)
  }

  /** The state `find_path` starts from: the start queued with f = h(start)
      and recorded in `best_cost` and `path_cost`. */
  function Initial(h: string -> int, start: string): Search
  {
    Search(multiset{Entry(h(start), 0, start)}, {}, map[start := h(start)], map[start := 0], map[])
  }

  lemma InitialInv(g: Graph, h: string -> int, start: string, end: string)
    ensures Inv(g, h, start, end, Initial(h, start), map[], 0, [])
  {
    assert start in NamesOf(Initial(h, start).frontier);
  }
}
