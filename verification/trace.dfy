/**
 * Retracing a solution path from the breadcrumbs a search leaves: the map
 * from each reached node to the node it was reached from, followed back from
 * the goal until the start is met, then reversed.
 */
module Trace {
  import opened Wrappers
  import opened Deg

  function Reverse<T>(s: seq<T>): (r: seq<T>)
    ensures |r| == |s|
    ensures forall i :: 0 <= i < |s| ==> r[i] == s[|s| - 1 - i]
  {
    if s == [] then [] else Reverse(s[1..]) + [s[0]]
  }

  /** Every breadcrumb `paths[k]` is joined to `k` by an edge and, for a
      ranked `k` other than the start (where retracing stops), leads to a
      node of strictly smaller rank. */
  predicate Breadcrumbs(g: Graph, paths: map<string, string>, start: string, rank: map<string, nat>)
  {
    forall k :: k in paths ==>
      && IsEdge(g, paths[k], k)
      && (k != start && k in rank ==> paths[k] in rank && rank[paths[k]] < rank[k])
  }

  /** Every breadcrumb other than the start's leads to the start or to a node
      that has a breadcrumb of its own. */
  predicate Linked(paths: map<string, string>, start: string)
  {
    forall k :: k in paths && k != start ==> paths[k] == start || paths[k] in paths
  }

  /** `sol`, read backwards, is a path of edges. */
  predicate BackPath(g: Graph, sol: seq<string>)
  {
    forall i :: 0 <= i < |sol| - 1 ==> IsEdge(g, sol[i + 1], sol[i])
  }

  lemma BackPathExtend(g: Graph, sol: seq<string>, next: string)
    requires |sol| >= 1 && BackPath(g, sol) && IsEdge(g, next, sol[|sol| - 1])
    ensures BackPath(g, sol + [next])
  {
  }

  lemma ReverseBackPath(g: Graph, sol: seq<string>)
    requires |sol| >= 1 && BackPath(g, sol)
    ensures var p := Reverse(sol);
      && p[0] == sol[|sol| - 1] && p[|p| - 1] == sol[0]
      && IsPath(g, p)
      && (|sol| == 1 ==> p == sol)
  {
    var p := Reverse(sol);
    forall i | 0 <= i < |p| - 1
      ensures IsEdge(g, p[i], p[i + 1])
    {
      assert p[i] == sol[|sol| - 1 - i] && p[i + 1] == sol[|sol| - 1 - i - 1];
    }
  }

  /** The retracing loop shared by the searches: a node without a breadcrumb
      before the start is reached is a missing key. What comes back is a path
      of edges from `start` to `end`. */
  method Retrace(g: Graph, paths: map<string, string>, start: string, end: string, ghost rank: map<string, nat>)
    returns (r: Result<seq<string>>)
    requires Breadcrumbs(g, paths, start, rank)
    requires end == start || end in rank || end !in paths
    ensures r.Failure? ==> r.error == KeyError
    ensures r.Success? ==>
      && |r.value| >= 1 && r.value[0] == start && r.value[|r.value| - 1] == end
      && IsPath(g, r.value)
    ensures end == start ==> r == Success([start])
    ensures Linked(paths, start) && (end == start || end in paths) ==> r.Success?
    ensures end != start && end !in paths ==> r == Failure(KeyError)
  {
    var sol := [end];
    var cur := end;
    while cur != start
      invariant |sol| >= 1 && sol[0] == end && sol[|sol| - 1] == cur
      invariant end == start ==> sol == [start]
      invariant BackPath(g, sol)
      invariant Linked(paths, start) && (end == start || end in paths) ==> cur == start || cur in paths
      invariant cur == end || cur in rank
      invariant end != start && end !in paths ==> cur == end
      decreases if cur in rank then rank[cur] + 1 else 0
    {
      if cur !in paths {
        return Failure(KeyError);
      }
      assert paths[cur] in rank && rank[paths[cur]] < rank[cur];
      BackPathExtend(g, sol, paths[cur]);
      cur := paths[cur];
      sol := sol + [cur];
    }
    ReverseBackPath(g, sol);
    return Success(Reverse(sol));
  }
}
