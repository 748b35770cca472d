/**
 * The level-sum heuristic of a built planning graph (`h_levelsum`): each
 * goal costs the index of the first S-level holding it as a positive
 * literal, and the heuristic adds these costs up.
 *
 * The source makes one pass over the levels, collecting each goal the
 * first time it meets it, and repeats the pass while it has collected
 * fewer goals than the goal list has entries. A pass after the first adds
 * nothing, so when a goal is never reached, or the list names a goal
 * twice, the loop does not end; the model answers `None` there.
 */
module LevelSum {
  import opened Wrappers
  import opened Collections
  import opened Strips
  import opened PlanningGraph

  /** The first level at or after `k` holding `goal` as a positive literal. */
  function Cost(levels: seq<set<LitNode>>, goal: Expr, k: nat): (r: Option<nat>)
    ensures r.Some? ==> k <= r.value < |levels| && LitNode(goal, true) in levels[r.value]
    ensures r.Some? ==> forall j :: k <= j < r.value ==> LitNode(goal, true) !in levels[j]
    ensures r.None? ==> forall j :: k <= j < |levels| ==> LitNode(goal, true) !in levels[j]
    decreases |levels| - k
  {
    if k >= |levels| then None
    else if LitNode(goal, true) in levels[k] then Some(k)
    else Cost(levels, goal, k + 1)
  }

  /** The level cost of a goal; a goal no level holds costs nothing. */
  function CostOf(levels: seq<set<LitNode>>, goal: Expr): nat
  {
    match Cost(levels, goal, 0)
    case Some(c) => c
    case None => 0
  }

  /** A goal some level holds. */
  predicate Reached(levels: seq<set<LitNode>>, goal: Expr)
  {
    Cost(levels, goal, 0).Some?
  }

  /** The goals first held by one of the levels before `k`. */
  function Found(levels: seq<set<LitNode>>, goals: seq<Expr>, k: nat): set<Expr>
  {
    set g | g in goals && Reached(levels, g) && CostOf(levels, g) < k
  }

  /** The level costs of the listed goals that are in `found`, added up. */
  function PartSum(levels: seq<set<LitNode>>, goals: seq<Expr>, found: set<Expr>): nat
  {
    if goals == [] then 0
    else (if goals[0] in found then CostOf(levels, goals[0]) else 0) + PartSum(levels, goals[1..], found)
  }

  /** What `h_levelsum` returns: the goals' level costs added up, or `None`
      where its loop never ends. */
  function LevelSum(levels: seq<set<LitNode>>, goals: seq<Expr>): Option<nat>
  {
    if Distinct(goals) && forall g :: g in goals ==> Reached(levels, g)
    then Some(PartSum(levels, goals, Elements(goals)))
    else None
  }

  /** A goal not yet collected when the pass meets it at level `k` costs `k`. */
  lemma CostAt(levels: seq<set<LitNode>>, goals: seq<Expr>, goal: Expr, k: nat)
    requires k < |levels| && LitNode(goal, true) in levels[k] && goal in goals
    requires goal !in Found(levels, goals, k)
    ensures Reached(levels, goal) && CostOf(levels, goal) == k
  {
  }

  /** Collecting one more goal of a list without repeats adds its cost. */
  lemma {:induction false} PartSumAdd(levels: seq<set<LitNode>>, goals: seq<Expr>, found: set<Expr>, goal: Expr)
    requires Distinct(goals) && goal in goals && goal !in found
    ensures PartSum(levels, goals, found + {goal}) == PartSum(levels, goals, found) + CostOf(levels, goal)
  {
    var t := goals[1..];
    assert Distinct(t) by {
      forall i, j | 0 <= i < j < |t| ensures t[i] != t[j] {
        assert t[i] == goals[i + 1] && t[j] == goals[j + 1];
      }
    }
    if goals[0] == goal {
      PartSumSkip(levels, t, found, goal);
    } else {
      assert goal in t;
      PartSumAdd(levels, t, found, goal);
    }
  }

  /** A goal the list does not name does not change its sum. */
  lemma {:induction false} PartSumSkip(levels: seq<set<LitNode>>, goals: seq<Expr>, found: set<Expr>, goal: Expr)
    requires goal !in goals
    ensures PartSum(levels, goals, found + {goal}) == PartSum(levels, goals, found)
  {
    if goals != [] {
      PartSumSkip(levels, goals[1..], found, goal);
    }
  }

  /** The goals collected by the end of level `k` are those collected
      before it and those level `k` holds. */
  lemma FoundNext(levels: seq<set<LitNode>>, goals: seq<Expr>, k: nat)
    requires k < |levels|
    ensures Found(levels, goals, k + 1) ==
      Found(levels, goals, k) + (set g | g in goals && LitNode(g, true) in levels[k])
  {
  }

  /** `h_levelsum` on the S-levels of a graph. Each pass over the levels
      collects a goal at the first level that holds it; the pass lists each
      level in some order, and the result does not depend on it. */
  method HLevelSum(levels: seq<set<LitNode>>, goals: seq<Expr>) returns (r: Option<nat>)
    ensures r == LevelSum(levels, goals)
  {
    var found: set<Expr> := {};
    var sum: nat := 0;
    var k := 0;
    PartSumZero(levels, goals, found);
    while k < |levels|
      invariant k <= |levels|
      invariant found == Found(levels, goals, k)
      invariant Distinct(goals) ==> sum == PartSum(levels, goals, found)
    {
      var lits := Enumerate(levels[k]);
      var i := 0;
      while i < |lits|
        invariant i <= |lits|
        invariant found == Found(levels, goals, k) + (set g | g in goals && LitNode(g, true) in lits[..i])
        invariant Distinct(goals) ==> sum == PartSum(levels, goals, found)
      {
        var l := lits[i];
        assert lits[..i + 1] == lits[..i] + [l];
        if l.isPos && l.symbol in goals && l.symbol !in found {
          assert l == LitNode(l.symbol, true);
          CostAt(levels, goals, l.symbol, k);
          if Distinct(goals) {
            PartSumAdd(levels, goals, found, l.symbol);
          }
          found := found + {l.symbol};
          sum := sum + k;
        }
        i := i + 1;
      }
      assert lits[..i] == lits;
      FoundNext(levels, goals, k);
      k := k + 1;
    }
    Collected(levels, goals, found);
    if |found| < |goals| {
      return None;
    }
    return Some(sum);
  }

  /** After a full pass, the collection is as large as the goal list exactly
      when the goals are distinct and all reached, and is then all of them. */
  lemma Collected(levels: seq<set<LitNode>>, goals: seq<Expr>, found: set<Expr>)
    requires found == Found(levels, goals, |levels|)
    ensures |found| <= |goals|
    ensures |found| == |goals| <==> Distinct(goals) && forall g :: g in goals ==> Reached(levels, g)
    ensures |found| == |goals| ==> found == Elements(goals)
  {
    ElementsCard(goals);
    SubsetCard(found, Elements(goals));
    if |found| == |goals| {
      if found != Elements(goals) {
        var g :| g in Elements(goals) && g !in found;
        SubsetCard(found, Elements(goals) - {g});
      }
      assert |Elements(goals)| == |goals|;
      assert forall g :: g in goals ==> g in found;
    }
    if Distinct(goals) && forall g :: g in goals ==> Reached(levels, g) {
      assert found == Elements(goals);
    }
  }

  /** Every goal's level cost is at most the level sum. */
  lemma {:induction false} PartSumBounds(levels: seq<set<LitNode>>, goals: seq<Expr>, found: set<Expr>, goal: Expr)
    requires goal in goals && goal in found
    ensures CostOf(levels, goal) <= PartSum(levels, goals, found)
  {
    if goals[0] != goal {
      PartSumBounds(levels, goals[1..], found, goal);
    }
  }

  /** The sum is zero exactly when every collected goal costs zero. */
  lemma {:induction false} PartSumZero(levels: seq<set<LitNode>>, goals: seq<Expr>, found: set<Expr>)
    ensures PartSum(levels, goals, found) == 0 <==>
      forall g :: g in goals && g in found ==> CostOf(levels, g) == 0
  {
    if goals != [] {
      PartSumZero(levels, goals[1..], found);
      assert forall g :: g in goals <==> g == goals[0] || g in goals[1..];
    }
  }

  /** The level sum is no less than the level cost of any single goal, and
      it is zero exactly when S0 already holds every goal. */
  lemma LevelSumMeaning(levels: seq<set<LitNode>>, goals: seq<Expr>)
    requires LevelSum(levels, goals).Some?
    ensures forall g :: g in goals ==> CostOf(levels, g) <= LevelSum(levels, goals).value
    ensures LevelSum(levels, goals) == Some(0) <==> forall g :: g in goals ==> LitNode(g, true) in levels[0]
  {
    forall g | g in goals
      ensures CostOf(levels, g) <= LevelSum(levels, goals).value
    {
      PartSumBounds(levels, goals, Elements(goals), g);
    }
    PartSumZero(levels, goals, Elements(goals));
  }
}
