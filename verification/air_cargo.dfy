/**
 * The air-cargo planning domain (`my_air_cargo_problems.py`): ground Load,
 * Unload and Fly actions over lists of cargos, planes and airports, which
 * actions a state allows, the state an action leads to, the goal test,
 * the construction of an initial state from a map of locations, and the
 * problem's heuristics.
 *
 * A state is its set of true fluents and its set of false fluents; the
 * T/F-string encoding against the state map is not modelled, and the
 * knowledge base that the source builds from a state's true fluents is
 * membership in that set.
 */
module AirCargo {
  import opened Wrappers
  import opened Collections
  import opened Strips
  import PlanningGraph
  import LevelSum

  // ------------------------------------------------------------- fluents

  /** `At(x, a)`: cargo or plane `x` is at airport `a`. */
  function At(x: string, a: string): Expr
  {
    Expr("At", [Sym(x), Sym(a)])
  }

  /** `In(c, p)`: cargo `c` is in plane `p`. */
  function In(c: string, p: string): Expr
  {
    Expr("In", [Sym(c), Sym(p)])
  }

  lemma FluentsDistinct(x: string, a: string, x': string, a': string)
    ensures At(x, a) == At(x', a') <==> x == x' && a == a'
    ensures In(x, a) == In(x', a') <==> x == x' && a == a'
    ensures At(x, a) != In(x', a')
  {
    if At(x, a) == At(x', a') {
      assert At(x, a).args[0] == Sym(x) && At(x', a').args[0] == Sym(x');
      assert At(x, a).args[1] == Sym(a) && At(x', a').args[1] == Sym(a');
    }
    if In(x, a) == In(x', a') {
      assert In(x, a).args[0] == Sym(x) && In(x', a').args[0] == Sym(x');
      assert In(x, a).args[1] == Sym(a) && In(x', a').args[1] == Sym(a');
    }
  }

  // ------------------------------------------------------------- actions

  /** `Load(c, p, a)`: cargo and plane at `a`; the cargo ends up in the plane. */
  function Load(c: string, p: string, a: string): Action
  {
    Action(Expr("Load", [Sym(c), Sym(p), Sym(a)]), [At(c, a), At(p, a)], [], [In(c, p)], [At(c, a)])
  }

  /** `Unload(c, p, a)`: cargo in the plane, plane at `a`; the cargo ends up at `a`. */
  function Unload(c: string, p: string, a: string): Action
  {
    Action(Expr("Unload", [Sym(c), Sym(p), Sym(a)]), [In(c, p), At(p, a)], [], [At(c, a)], [In(c, p)])
  }

  /** `Fly(p, fr, to)`: the plane leaves `fr` for `to`. */
  function Fly(p: string, fr: string, to: string): Action
  {
    Action(Expr("Fly", [Sym(p), Sym(fr), Sym(to)]), [At(p, fr)], [], [At(p, to)], [At(p, fr)])
  }

  /** The two schemas ground over (cargo, plane, airport). */
  datatype Schema = LoadSchema | UnloadSchema

  function Ground(k: Schema, c: string, p: string, a: string): Action
  {
    match k
    case LoadSchema => Load(c, p, a)
    case UnloadSchema => Unload(c, p, a)
  }

  /** The innermost loop `for a in self.airports`. */
  function OverAirports(k: Schema, c: string, p: string, airports: seq<string>): (r: seq<Action>)
    ensures |r| == |airports|
    ensures forall i :: 0 <= i < |r| ==> r[i] == Ground(k, c, p, airports[i])
  {
    if airports == [] then [] else [Ground(k, c, p, airports[0])] + OverAirports(k, c, p, airports[1..])
  }

  /** The middle loop `for p in self.planes`. */
  function OverPlanes(k: Schema, c: string, planes: seq<string>, airports: seq<string>): (r: seq<Action>)
    ensures |r| == |planes| * |airports|
    ensures forall x :: x in r <==> exists p, a :: p in planes && a in airports && x == Ground(k, c, p, a)
  {
    if planes == [] then []
    else
      var r := OverAirports(k, c, planes[0], airports) + OverPlanes(k, c, planes[1..], airports);
      assert forall p :: p in planes <==> p == planes[0] || p in planes[1..];
      assert forall x :: x in OverAirports(k, c, planes[0], airports) <==>
        exists a :: a in airports && x == Ground(k, c, planes[0], a) by {
        forall x | x in OverAirports(k, c, planes[0], airports)
          ensures exists a :: a in airports && x == Ground(k, c, planes[0], a)
        {
          var i :| 0 <= i < |airports| && OverAirports(k, c, planes[0], airports)[i] == x;
          assert airports[i] in airports;
        }
        forall a | a in airports
          ensures Ground(k, c, planes[0], a) in OverAirports(k, c, planes[0], airports)
        {
          var i :| 0 <= i < |airports| && airports[i] == a;
          assert OverAirports(k, c, planes[0], airports)[i] == Ground(k, c, planes[0], a);
        }
      }
      MulSucc(|planes|, |airports|);
      r
  }

  /** The outer loop `for c in self.cargos` of `load_actions` and
      `unload_actions`. */
  function OverCargos(k: Schema, cargos: seq<string>, planes: seq<string>, airports: seq<string>): (r: seq<Action>)
    ensures |r| == |cargos| * (|planes| * |airports|)
    ensures forall x :: x in r <==>
      exists c, p, a :: c in cargos && p in planes && a in airports && x == Ground(k, c, p, a)
  {
    if cargos == [] then []
    else
      var r := OverPlanes(k, cargos[0], planes, airports) + OverCargos(k, cargos[1..], planes, airports);
      assert forall c :: c in cargos <==> c == cargos[0] || c in cargos[1..];
      MulSucc(|cargos|, |planes| * |airports|);
      r
  }

  /** The innermost loop of `fly_actions`: `for p in self.planes`. */
  function FlyPlanes(fr: string, to: string, planes: seq<string>): (r: seq<Action>)
    ensures |r| == |planes|
    ensures forall i :: 0 <= i < |r| ==> r[i] == Fly(planes[i], fr, to)
  {
    if planes == [] then [] else [Fly(planes[0], fr, to)] + FlyPlanes(fr, to, planes[1..])
  }

  /** The airports of the list other than `fr`. */
  function Others(airports: seq<string>, fr: string): (r: seq<string>)
    ensures forall a :: a in r <==> a in airports && a != fr
    ensures |r| <= |airports|
  {
    if airports == [] then []
    else
      assert forall a :: a in airports <==> a == airports[0] || a in airports[1..];
      (if airports[0] != fr then [airports[0]] else []) + Others(airports[1..], fr)
  }

  /** In a list without repeats, every airport but the one left out remains. */
  lemma {:induction false} OthersCount(airports: seq<string>, fr: string)
    requires Distinct(airports) && fr in airports
    ensures |Others(airports, fr)| == |airports| - 1
  {
    var t := airports[1..];
    assert Distinct(t) by {
      forall i, j | 0 <= i < j < |t| ensures t[i] != t[j] {
        assert t[i] == airports[i + 1] && t[j] == airports[j + 1];
      }
    }
    if airports[0] == fr {
      assert fr !in t by {
        forall i | 0 <= i < |t| ensures t[i] != fr {
          assert t[i] == airports[i + 1];
        }
      }
      OthersAbsent(t, fr);
    } else {
      assert fr in t;
      OthersCount(t, fr);
    }
  }

  lemma {:induction false} OthersAbsent(airports: seq<string>, fr: string)
    requires fr !in airports
    ensures Others(airports, fr) == airports
  {
    if airports != [] {
      OthersAbsent(airports[1..], fr);
    }
  }

  /** The loop `for to in self.airports: if fr != to: ...`. */
  function FlyTos(fr: string, tos: seq<string>, planes: seq<string>): (r: seq<Action>)
    ensures |r| == |Others(tos, fr)| * |planes|
    ensures forall x :: x in r <==> exists p, to :: p in planes && to in tos && to != fr && x == Fly(p, fr, to)
  {
    if tos == [] then []
    else
      var here := if tos[0] != fr then FlyPlanes(fr, tos[0], planes) else [];
      var r := here + FlyTos(fr, tos[1..], planes);
      MulSucc(|Others(tos, fr)|, |planes|);
      assert forall a :: a in tos <==> a == tos[0] || a in tos[1..];
      assert forall x :: x in FlyPlanes(fr, tos[0], planes) <==> exists p :: p in planes && x == Fly(p, fr, tos[0]) by {
        forall x | x in FlyPlanes(fr, tos[0], planes)
          ensures exists p :: p in planes && x == Fly(p, fr, tos[0])
        {
          var i :| 0 <= i < |planes| && FlyPlanes(fr, tos[0], planes)[i] == x;
          assert planes[i] in planes;
        }
        forall p | p in planes
          ensures Fly(p, fr, tos[0]) in FlyPlanes(fr, tos[0], planes)
        {
          var i :| 0 <= i < |planes| && planes[i] == p;
          assert FlyPlanes(fr, tos[0], planes)[i] == Fly(p, fr, tos[0]);
        }
      }
      r
  }

  /** The outer loop `for fr in self.airports` of `fly_actions`. */
  function FlyFroms(frs: seq<string>, airports: seq<string>, planes: seq<string>): (r: seq<Action>)
    ensures forall x :: x in r <==>
      exists p, fr, to :: p in planes && fr in frs && to in airports && fr != to && x == Fly(p, fr, to)
  {
    if frs == [] then []
    else
      assert forall a :: a in frs <==> a == frs[0] || a in frs[1..];
      FlyTos(frs[0], airports, planes) + FlyFroms(frs[1..], airports, planes)
  }

  /** With airports listed once each, every airport flies to every other:
      |P|·|A|·(|A| − 1) actions for the first `|frs|` airports. */
  lemma {:induction false} FlyCount(frs: seq<string>, airports: seq<string>, planes: seq<string>)
    requires Distinct(airports) && forall fr :: fr in frs ==> fr in airports
    ensures |FlyFroms(frs, airports, planes)| == |frs| * ((|airports| - 1) * |planes|)
  {
    if frs != [] {
      OthersCount(airports, frs[0]);
      FlyCount(frs[1..], airports, planes);
      MulSucc(|frs|, (|airports| - 1) * |planes|);
    }
  }

  lemma MulSucc(n: int, k: int)
    ensures n * k == k + (n - 1) * k
  {
  }

  lemma MulCommute3(a: int, b: int, c: int)
    ensures a * (b * c) == c * a * b
  {
  }

  lemma MulAssoc(a: int, b: int, c: int)
    ensures a * (b * c) == a * b * c
  {
  }

  /** `get_actions`: the Load actions, then the Unload actions, then the Fly
      actions. */
  function GetActions(cargos: seq<string>, planes: seq<string>, airports: seq<string>): seq<Action>
  {
    OverCargos(LoadSchema, cargos, planes, airports)
      + OverCargos(UnloadSchema, cargos, planes, airports)
      + FlyFroms(airports, airports, planes)
  }

  /** The ground actions are exactly the Load and Unload actions of every
      (cargo, plane, airport) and the Fly actions of every plane between
      two different airports. */
  lemma GetActionsMembers(cargos: seq<string>, planes: seq<string>, airports: seq<string>)
    ensures var r := GetActions(cargos, planes, airports);
      forall x :: x in r <==>
        || (exists c, p, a :: c in cargos && p in planes && a in airports && x == Load(c, p, a))
        || (exists c, p, a :: c in cargos && p in planes && a in airports && x == Unload(c, p, a))
        || (exists p, fr, to :: p in planes && fr in airports && to in airports && fr != to && x == Fly(p, fr, to))
  {
    var loads := OverCargos(LoadSchema, cargos, planes, airports);
    var unloads := OverCargos(UnloadSchema, cargos, planes, airports);
    assert forall x :: x in loads <==>
      exists c, p, a :: c in cargos && p in planes && a in airports && x == Load(c, p, a) by {
      forall x | x in loads
        ensures exists c, p, a :: c in cargos && p in planes && a in airports && x == Load(c, p, a)
      {
        var c, p, a :| c in cargos && p in planes && a in airports && x == Ground(LoadSchema, c, p, a);
      }
      forall c, p, a | c in cargos && p in planes && a in airports
        ensures Load(c, p, a) in loads
      {
        assert Load(c, p, a) == Ground(LoadSchema, c, p, a);
      }
    }
    assert forall x :: x in unloads <==>
      exists c, p, a :: c in cargos && p in planes && a in airports && x == Unload(c, p, a) by {
      forall x | x in unloads
        ensures exists c, p, a :: c in cargos && p in planes && a in airports && x == Unload(c, p, a)
      {
        var c, p, a :| c in cargos && p in planes && a in airports && x == Ground(UnloadSchema, c, p, a);
      }
      forall c, p, a | c in cargos && p in planes && a in airports
        ensures Unload(c, p, a) in unloads
      {
        assert Unload(c, p, a) == Ground(UnloadSchema, c, p, a);
      }
    }
  }

  /** With airports listed once each there are |C|·|P|·|A| Load and as many
      Unload actions, and |P|·|A|·(|A| − 1) flights. */
  lemma GetActionsCount(cargos: seq<string>, planes: seq<string>, airports: seq<string>)
    requires Distinct(airports)
    ensures |OverCargos(LoadSchema, cargos, planes, airports)| == |cargos| * |planes| * |airports|
    ensures |OverCargos(UnloadSchema, cargos, planes, airports)| == |cargos| * |planes| * |airports|
    ensures |FlyFroms(airports, airports, planes)| == |planes| * |airports| * (|airports| - 1)
    ensures |GetActions(cargos, planes, airports)| ==
      2 * (|cargos| * |planes| * |airports|) + |planes| * |airports| * (|airports| - 1)
  {
    FlyCount(airports, airports, planes);
    MulCommute3(|airports|, |airports| - 1, |planes|);
    MulAssoc(|cargos|, |planes|, |airports|);
  }

  /** Load and Unload each add and remove fluents of different kinds, and
      a flight joins two different airports, so no ground action both adds
      and removes the same fluent. */
  lemma GroundConsistent(cargos: seq<string>, planes: seq<string>, airports: seq<string>, x: Action)
    requires x in GetActions(cargos, planes, airports)
    ensures Elements(x.effectAdd) !! Elements(x.effectRem)
  {
    GetActionsMembers(cargos, planes, airports);
    if exists p, fr, to :: p in planes && fr in airports && to in airports && fr != to && x == Fly(p, fr, to) {
      var p, fr, to :| p in planes && fr in airports && to in airports && fr != to && x == Fly(p, fr, to);
      FluentsDistinct(p, to, p, fr);
    } else if exists c, p, a :: c in cargos && p in planes && a in airports && x == Load(c, p, a) {
      var c, p, a :| c in cargos && p in planes && a in airports && x == Load(c, p, a);
      FluentsDistinct(c, a, c, p);
    } else {
      var c, p, a :| c in cargos && p in planes && a in airports && x == Unload(c, p, a);
      FluentsDistinct(c, a, c, p);
    }
  }

  // ------------------------------------------------------------- problem

  /** An air-cargo problem: its objects, the state map (the initial true
      fluents followed by the initial false ones), the initial state, the
      goal fluents and the ground actions. */
  datatype Problem = Problem(cargos: seq<string>, planes: seq<string>, airports: seq<string>,
                             stateMap: seq<Expr>, initial: State, goal: seq<Expr>, actionsList: seq<Action>)

  /** `AirCargoProblem.__init__`. The initial state is what decoding its
      T/F encoding over the state map gives back: the listed true fluents,
      and every other fluent of the map as false. */
  function NewProblem(cargos: seq<string>, planes: seq<string>, airports: seq<string>,
                      pos: seq<Expr>, neg: seq<Expr>, goal: seq<Expr>): (r: Problem)
    ensures Partition(r.initial, Elements(r.stateMap))
    ensures Elements(pos) !! Elements(neg) ==> r.initial == State(Elements(pos), Elements(neg))
    ensures forall x :: x in r.actionsList <==> x in GetActions(cargos, planes, airports)
  {
    var stateMap := pos + neg;
    assert Elements(stateMap) == Elements(pos) + Elements(neg);
    Problem(cargos, planes, airports, stateMap, State(Elements(pos), Elements(stateMap) - Elements(pos)),
            goal, GetActions(cargos, planes, airports))
  }

  // ---------------------------------------------------------- applicable

  /** The `for clause in action.precond_pos` scan: every clause is a true
      fluent. */
  function AllTrue(clauses: seq<Expr>, pos: set<Expr>): (r: bool)
    ensures r <==> forall e :: e in clauses ==> e in pos
  {
    if clauses == [] then true
    else
      assert forall e :: e in clauses <==> e == clauses[0] || e in clauses[1..];
      clauses[0] in pos && AllTrue(clauses[1..], pos)
  }

  /** The `for clause in action.precond_neg` scan: no clause is a true fluent. */
  function NoneTrue(clauses: seq<Expr>, pos: set<Expr>): (r: bool)
    ensures r <==> forall e :: e in clauses ==> e !in pos
  {
    if clauses == [] then true
    else
      assert forall e :: e in clauses <==> e == clauses[0] || e in clauses[1..];
      clauses[0] !in pos && NoneTrue(clauses[1..], pos)
  }

  /** The action may run in the state. */
  predicate Enabled(s: State, a: Action)
  {
    AllTrue(a.precondPos, s.pos) && NoneTrue(a.precondNeg, s.pos)
  }

  /** `actions`: the actions of the list, in list order, whose positive
      preconditions are all true fluents and whose negative preconditions
      are not. */
  function Actions(s: State, actionsList: seq<Action>): (r: seq<Action>)
    ensures |r| <= |actionsList|
    ensures forall x :: x in r <==> (x in actionsList &&
      (forall e :: e in x.precondPos ==> e in s.pos) && (forall e :: e in x.precondNeg ==> e !in s.pos))
  {
    if actionsList == [] then []
    else
      assert forall x :: x in actionsList <==> x == actionsList[0] || x in actionsList[1..];
      (if Enabled(s, actionsList[0]) then [actionsList[0]] else []) + Actions(s, actionsList[1..])
  }

  /** `actions` keeps the list order: filtering two lists one after the
      other is filtering their concatenation. */
  lemma {:induction false} ActionsAppend(s: State, xs: seq<Action>, ys: seq<Action>)
    ensures Actions(s, xs + ys) == Actions(s, xs) + Actions(s, ys)
  {
    if xs == [] {
      assert xs + ys == ys;
    } else {
      assert (xs + ys)[0] == xs[0] && (xs + ys)[1..] == xs[1..] + ys;
      ActionsAppend(s, xs[1..], ys);
    }
  }

  // -------------------------------------------------------------- result

  /** `result`: the true fluents lose the removed ones and gain the added
      ones; the false fluents lose the added ones and gain the removed ones. */
  function Result(s: State, a: Action): State
  {
    State((s.pos - Elements(a.effectRem)) + Elements(a.effectAdd),
          (s.neg - Elements(a.effectAdd)) + Elements(a.effectRem))
  }

  /** After the action its added fluents hold and, when it does not both add
      and remove one fluent, its removed fluents do not; every other fluent
      keeps its truth value. */
  lemma ResultEffects(s: State, a: Action)
    ensures forall e :: e in a.effectAdd ==> e in Result(s, a).pos
    ensures forall e :: e in a.effectRem ==> e in Result(s, a).neg
    ensures Elements(a.effectAdd) !! Elements(a.effectRem) ==>
      forall e :: e in a.effectRem ==> e !in Result(s, a).pos
    ensures forall e :: e !in a.effectAdd && e !in a.effectRem ==>
      (e in Result(s, a).pos <==> e in s.pos) && (e in Result(s, a).neg <==> e in s.neg)
  {
  }

  /** A state that assigns every fluent of the map one truth value still
      does so after an action whose effects are fluents of the map and
      which does not both add and remove one fluent; the encoding of the
      result against the state map therefore loses nothing. */
  lemma ResultPartition(s: State, a: Action, fluents: set<Expr>)
    requires Partition(s, fluents)
    requires Elements(a.effectAdd) <= fluents && Elements(a.effectRem) <= fluents
    requires Elements(a.effectAdd) !! Elements(a.effectRem)
    ensures Partition(Result(s, a), fluents)
  {
  }

  // ----------------------------------------------------------- goal test

  /** `goal_test`: every goal clause is a true fluent. */
  function GoalTest(s: State, goal: seq<Expr>): (r: bool)
    ensures r <==> forall g :: g in goal ==> g in s.pos
  {
    AllTrue(goal, s.pos)
  }

  // --------------------------------------------------------- list builder

  /** The location dictionary `pos_At` as its (key, airport) entries in
      insertion order; a dictionary has each key once. */
  type Locations = seq<(string, string)>

  function KeysOf(d: Locations): (r: seq<string>)
    ensures |r| == |d| && forall i :: 0 <= i < |d| ==> r[i] == d[i].0
  {
    seq(|d|, i requires 0 <= i < |d| => d[i].0)
  }

  /** `pos_At[key]`, a `KeyError` when the key is missing. */
  function Lookup(d: Locations, key: string): (r: Result<string>)
    ensures r.Failure? <==> key !in KeysOf(d)
    ensures r.Failure? ==> r.error == KeyError
    ensures r.Success? ==> (key, r.value) in d
    ensures Distinct(KeysOf(d)) ==> forall v :: (key, v) in d ==> r == Success(v)
  {
    if d == [] then Failure(KeyError)
    else if d[0].0 == key then Success(d[0].1)
    else
      assert forall k :: k in KeysOf(d) <==> k == d[0].0 || k in KeysOf(d[1..]);
      var r := Lookup(d[1..], key);
      assert Distinct(KeysOf(d)) ==> Distinct(KeysOf(d[1..])) by {
        if Distinct(KeysOf(d)) {
          forall i, j | 0 <= i < j < |d| - 1 ensures KeysOf(d[1..])[i] != KeysOf(d[1..])[j] {
            assert KeysOf(d)[i + 1] != KeysOf(d)[j + 1];
          }
        }
      }
      assert forall v :: (key, v) in d ==> (key, v) in d[1..] by {
        forall v | (key, v) in d ensures (key, v) in d[1..] {
          var i :| 0 <= i < |d| && d[i] == (key, v);
          assert i != 0;
          assert d[1..][i - 1] == d[i];
        }
      }
      r
  }

  /** `pos`: one `At(key, pos_At[key])` per dictionary entry, so with each
      key once an `At` fluent is listed exactly when looking its object up
      gives its airport, and nothing else is listed. */
  function PosList(d: Locations): (r: seq<Expr>)
    ensures |r| == |d|
    ensures forall e :: e in r ==> exists x, a :: e == At(x, a)
    ensures Distinct(KeysOf(d)) ==> forall x, a :: At(x, a) in r <==> Lookup(d, x) == Success(a)
  {
    var r := seq(|d|, i requires 0 <= i < |d| => At(d[i].0, d[i].1));
    PosListLookup(d, r);
    r
  }

  lemma PosListLookup(d: Locations, r: seq<Expr>)
    requires |r| == |d| && forall i :: 0 <= i < |d| ==> r[i] == At(d[i].0, d[i].1)
    ensures Distinct(KeysOf(d)) ==> forall x, a :: At(x, a) in r <==> Lookup(d, x) == Success(a)
  {
    if Distinct(KeysOf(d)) {
      forall x, a ensures At(x, a) in r <==> Lookup(d, x) == Success(a) {
        PosListAt(d, r, x, a);
      }
    }
  }

  lemma PosListAt(d: Locations, r: seq<Expr>, x: string, a: string)
    requires Distinct(KeysOf(d))
    requires |r| == |d| && forall i :: 0 <= i < |d| ==> r[i] == At(d[i].0, d[i].1)
    ensures At(x, a) in r <==> Lookup(d, x) == Success(a)
  {
    if At(x, a) in r {
      var i :| 0 <= i < |r| && r[i] == At(x, a);
      FluentsDistinct(x, a, d[i].0, d[i].1);
      assert (x, a) in d;
    }
    if Lookup(d, x) == Success(a) {
      var i :| 0 <= i < |d| && d[i] == (x, a);
      assert r[i] == At(x, a);
    }
  }

  /** The inner loop `for cur_airport in airports if pos_At[x] != cur_airport`. */
  function NegAtAirports(x: string, airports: seq<string>, d: Locations): (r: Result<seq<Expr>>)
    ensures r.Failure? <==> |airports| > 0 && x !in KeysOf(d)
    ensures r.Failure? ==> r.error == KeyError
    ensures r.Success? ==> forall e :: e in r.value <==>
      exists a :: a in airports && Lookup(d, x) != Success(a) && e == At(x, a)
  {
    if airports == [] then Success([])
    else
      var here := Lookup(d, x);
      if here.Failure? then Failure(KeyError)
      else
        var rest := NegAtAirports(x, airports[1..], d);
        assert rest.Success?;
        assert forall a :: a in airports <==> a == airports[0] || a in airports[1..];
        Success((if here.value != airports[0] then [At(x, airports[0])] else []) + rest.value)
  }

  /** The comprehension `for x in xs for cur_airport in airports if ...`:
      `At(x, a)` for every airport other than the one `x` is at. */
  function NegAt(xs: seq<string>, airports: seq<string>, d: Locations): (r: Result<seq<Expr>>)
    ensures r.Failure? <==> |airports| > 0 && exists x :: x in xs && x !in KeysOf(d)
    ensures r.Failure? ==> r.error == KeyError
    ensures r.Success? ==> forall e :: e in r.value <==>
      exists x, a :: x in xs && a in airports && Lookup(d, x) != Success(a) && e == At(x, a)
  {
    if xs == [] then Success([])
    else
      assert forall x :: x in xs <==> x == xs[0] || x in xs[1..];
      var here := NegAtAirports(xs[0], airports, d);
      if here.Failure? then Failure(KeyError)
      else
        var rest := NegAt(xs[1..], airports, d);
        if rest.Failure? then Failure(KeyError)
        else Success(here.value + rest.value)
  }

  /** `neg_in_list`: `In(c, p)` for every cargo and plane. */
  function NegIn(cargos: seq<string>, planes: seq<string>): (r: seq<Expr>)
    ensures forall e :: e in r <==> exists c, p :: c in cargos && p in planes && e == In(c, p)
  {
    if cargos == [] then []
    else
      assert forall c :: c in cargos <==> c == cargos[0] || c in cargos[1..];
      InsFor(cargos[0], planes) + NegIn(cargos[1..], planes)
  }

  function InsFor(c: string, planes: seq<string>): (r: seq<Expr>)
    ensures forall e :: e in r <==> exists p :: p in planes && e == In(c, p)
  {
    if planes == [] then []
    else
      assert forall p :: p in planes <==> p == planes[0] || p in planes[1..];
      [In(c, planes[0])] + InsFor(c, planes[1..])
  }

  /** `cargo_problem_list_builder`: the true `At` fluents from the
      dictionary, then as false fluents every other location of each cargo
      and each plane and every `In` pair. A cargo or plane missing from the
      dictionary is a `KeyError` as soon as there is an airport to compare
      with. */
  function ListBuilder(cargos: seq<string>, planes: seq<string>, airports: seq<string>, d: Locations)
    : (r: Result<(seq<Expr>, seq<Expr>)>)
    ensures r.Failure? <==> |airports| > 0 && exists x :: (x in cargos || x in planes) && x !in KeysOf(d)
    ensures r.Failure? ==> r.error == KeyError
  {
    var cs := NegAt(cargos, airports, d);
    var ps := NegAt(planes, airports, d);
    if cs.Failure? || ps.Failure? then Failure(KeyError)
    else Success((PosList(d), cs.value + ps.value + NegIn(cargos, planes)))
  }

  /** All fluents of a problem: each cargo or plane at each airport, and
      each cargo in each plane. */
  function AllFluents(cargos: seq<string>, planes: seq<string>, airports: seq<string>): set<Expr>
  {
    (set x, a | x in cargos + planes && a in airports :: At(x, a))
      + (set c, p | c in cargos && p in planes :: In(c, p))
  }

  /** The built lists never call a fluent both true and false. */
  lemma ListBuilderDisjoint(cargos: seq<string>, planes: seq<string>, airports: seq<string>, d: Locations)
    requires Distinct(KeysOf(d))
    requires ListBuilder(cargos, planes, airports, d).Success?
    ensures var (pos, neg) := ListBuilder(cargos, planes, airports, d).value;
      Elements(pos) !! Elements(neg)
  {
    var (pos, neg) := ListBuilder(cargos, planes, airports, d).value;
    var cs := NegAt(cargos, airports, d).value;
    var ps := NegAt(planes, airports, d).value;
    assert neg == cs + ps + NegIn(cargos, planes);
  }

  /** When the dictionary places exactly the cargos and planes, each at
      one of the airports, the built lists give every fluent of the problem
      a truth value, and nothing else. */
  lemma ListBuilderComplete(cargos: seq<string>, planes: seq<string>, airports: seq<string>, d: Locations)
    requires Distinct(KeysOf(d))
    requires ListBuilder(cargos, planes, airports, d).Success?
    requires forall i :: 0 <= i < |d| ==> d[i].0 in cargos + planes && d[i].1 in airports
    ensures var (pos, neg) := ListBuilder(cargos, planes, airports, d).value;
      Partition(State(Elements(pos), Elements(neg)), AllFluents(cargos, planes, airports))
  {
    ListBuilderDisjoint(cargos, planes, airports, d);
    var (pos, neg) := ListBuilder(cargos, planes, airports, d).value;
    var cs := NegAt(cargos, airports, d).value;
    var ps := NegAt(planes, airports, d).value;
    assert pos == PosList(d) && neg == cs + ps + NegIn(cargos, planes);
    ListCovers(cargos, planes, airports, d, cs, ps, neg);
    ListWithin(cargos, planes, airports, d, cs, ps, neg);
  }

  /** Every fluent of the problem is in one of the built lists. */
  lemma ListCovers(cargos: seq<string>, planes: seq<string>, airports: seq<string>, d: Locations,
                   cs: seq<Expr>, ps: seq<Expr>, neg: seq<Expr>)
    requires Distinct(KeysOf(d))
    requires NegAt(cargos, airports, d) == Success(cs) && NegAt(planes, airports, d) == Success(ps)
    requires neg == cs + ps + NegIn(cargos, planes)
    ensures AllFluents(cargos, planes, airports) <= Elements(PosList(d)) + Elements(neg)
  {
    var pos := PosList(d);
    forall x, a | x in cargos + planes && a in airports
      ensures At(x, a) in Elements(pos) + Elements(neg)
    {
      if Lookup(d, x) == Success(a) {
        var i :| 0 <= i < |d| && d[i] == (x, a);
        assert pos[i] == At(x, a);
      } else if x in cargos {
        assert At(x, a) in cs;
      } else {
        assert At(x, a) in ps;
      }
    }
  }

  /** Every entry of the built lists is a fluent of the problem. */
  lemma ListWithin(cargos: seq<string>, planes: seq<string>, airports: seq<string>, d: Locations,
                   cs: seq<Expr>, ps: seq<Expr>, neg: seq<Expr>)
    requires forall i :: 0 <= i < |d| ==> d[i].0 in cargos + planes && d[i].1 in airports
    requires NegAt(cargos, airports, d) == Success(cs) && NegAt(planes, airports, d) == Success(ps)
    requires neg == cs + ps + NegIn(cargos, planes)
    ensures Elements(PosList(d)) + Elements(neg) <= AllFluents(cargos, planes, airports)
  {
    var all := AllFluents(cargos, planes, airports);
    var pos := PosList(d);
    forall i | 0 <= i < |d| ensures pos[i] in all {
      AtFluent(cargos, planes, airports, d[i].0, d[i].1);
    }
    forall e | e in cs ensures e in all {
      var x, a :| x in cargos && a in airports && Lookup(d, x) != Success(a) && e == At(x, a);
      AtFluent(cargos, planes, airports, x, a);
    }
    forall e | e in ps ensures e in all {
      var x, a :| x in planes && a in airports && Lookup(d, x) != Success(a) && e == At(x, a);
      AtFluent(cargos, planes, airports, x, a);
    }
    forall e | e in neg ensures e in all {
      if e !in cs && e !in ps {
        assert e in NegIn(cargos, planes);
      }
    }
  }

  /** A cargo or plane at an airport is a fluent of the problem. */
  lemma AtFluent(cargos: seq<string>, planes: seq<string>, airports: seq<string>, x: string, a: string)
    requires (x in cargos || x in planes) && a in airports
    ensures At(x, a) in AllFluents(cargos, planes, airports)
  {
    assert x in cargos + planes;
  }

  // ---------------------------------------------------------- heuristics

  /** `h_1`: not a true heuristic, one everywhere. */
  function H1(s: State): nat
  {
    1
  }

  /** `h_ignore_preconditions`: left as a stub returning zero. */
  function HIgnorePreconditions(s: State): nat
  {
    0
  }

  /** Both stubs ignore the state: `h_1` is one and the precondition-free
      estimate zero, so the latter never overestimates. */
  lemma StubHeuristics(s: State, s': State)
    ensures H1(s) == H1(s') == 1
    ensures HIgnorePreconditions(s) == HIgnorePreconditions(s') == 0
  {
  }

  /** The action a head names in the air-cargo pool: the schema given by the
      name, applied to the arguments. */
  function FromHead(h: Expr): Action
  {
    if h.op == "Load" && |h.args| == 3 then Load(h.args[0].op, h.args[1].op, h.args[2].op)
    else if h.op == "Unload" && |h.args| == 3 then Unload(h.args[0].op, h.args[1].op, h.args[2].op)
    else if h.op == "Fly" && |h.args| == 3 then Fly(h.args[0].op, h.args[1].op, h.args[2].op)
    else if h.op == "Noop_pos" && |h.args| == 1 then PlanningGraph.NoopPos(h.args[0])
    else PlanningGraph.NoopNeg(if h.args == [] then h else h.args[0])
  }

  /** Every action of the pool is the one its head names. */
  lemma PoolFromHead(cargos: seq<string>, planes: seq<string>, airports: seq<string>, fluents: seq<Expr>, x: Action)
    requires x in GetActions(cargos, planes, airports) + PlanningGraph.Noops(fluents)
    ensures x == FromHead(x.head)
  {
    if x in GetActions(cargos, planes, airports) {
      GetActionsMembers(cargos, planes, airports);
    } else {
      var r := PlanningGraph.Noops(fluents);
      var j :| 0 <= j < |r| && r[j] == x;
      var i := j / 2;
      assert j == 2 * i || j == 2 * i + 1;
    }
  }

  /** In the pool the air-cargo heuristic grows its graph from, actions with
      the same head are the same action, so comparing action nodes by name
      and arguments, as `PgNode_a` does, or by the whole action, as the model
      does, is the same comparison there. */
  lemma PoolHeadsIdentify(cargos: seq<string>, planes: seq<string>, airports: seq<string>, fluents: seq<Expr>,
                          x: Action, y: Action)
    requires x in GetActions(cargos, planes, airports) + PlanningGraph.Noops(fluents)
    requires y in GetActions(cargos, planes, airports) + PlanningGraph.Noops(fluents)
    ensures x.head == y.head <==> x == y
  {
    PoolFromHead(cargos, planes, airports, fluents, x);
    PoolFromHead(cargos, planes, airports, fluents, y);
  }

  /** `h_pg_levelsum`: build the planning graph of the problem's actions
      and no-ops from the state, and take its level sum over the goal. */
  method HPgLevelSum(p: Problem, st: State) returns (r: Option<nat>, g: PlanningGraph.Graph)
    requires st.pos + st.neg <= Elements(p.stateMap)
    ensures PlanningGraph.Built(g, p.actionsList + PlanningGraph.Noops(p.stateMap),
                                PlanningGraph.InitialLevel(st), PlanningGraph.DefaultFlags, PlanningGraph.Intended)
    ensures r == LevelSum.LevelSum(g.sLevels, p.goal)
  {
    g := PlanningGraph.Build(p.actionsList, p.stateMap, st, PlanningGraph.DefaultFlags, PlanningGraph.Intended);
    r := LevelSum.HLevelSum(g.sLevels, p.goal);
  }
}
