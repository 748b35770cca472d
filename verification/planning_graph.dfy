/**
 * The GraphPlan planning graph (`my_planning_graph.py`): alternating
 * literal (S) and action (A) levels grown from a state until two
 * consecutive S-levels hold the same literals, with the mutual-exclusion
 * relations between siblings and the level-sum heuristic.
 *
 * A node's identity is its value together with its level: literal nodes
 * compare by (symbol, polarity), and action nodes by their action. Parent
 * sets and mutex sets, which the source keeps as mutable fields of node
 * objects, are functions of the levels here. How an action node and a
 * literal node are linked to their parents follows a `Linking` choice:
 * `AsWritten` follows the code (an action is linked to every literal of its
 * S-level, and a literal only to the first action that produced it, because
 * a later equal node is dropped by the level set); `Intended` links an
 * action to its preconditions and a literal to every action producing it.
 */
module PlanningGraph {
  import opened Wrappers
  import opened Collections
  import opened Strips

  // ---------------------------------------------------------------- nodes

  /** `PgNode_s`: the fluent `symbol` when `isPos`, else its negation. */
  datatype LitNode = LitNode(symbol: Expr, isPos: bool)

  /** `PgNode_s.__eq__`: polarity and symbol agree, which is exactly
      equality of the literals. */
  function LitEq(a: LitNode, b: LitNode): (r: bool)
    ensures r <==> a == b
  {
    a.isPos == b.isPos && a.symbol == b.symbol
  }

  function Negate(l: LitNode): LitNode
  {
    LitNode(l.symbol, !l.isPos)
  }

  /** The literal nodes of one polarity for a list of fluents: one loop of
      `precond_s_nodes` or `effect_s_nodes`. */
  function Lits(xs: seq<Expr>, isPos: bool): (r: set<LitNode>)
    ensures forall l :: l in r <==> l.isPos == isPos && l.symbol in xs
  {
    if xs == [] then {}
    else
      assert forall x :: x in xs <==> x in xs[..|xs| - 1] || x == xs[|xs| - 1];
      Lits(xs[..|xs| - 1], isPos) + {LitNode(xs[|xs| - 1], isPos)}
  }

  /** `prenodes`: the literals the action needs. */
  function Prenodes(a: Action): (r: set<LitNode>)
    ensures forall l :: l in r <==> if l.isPos then l.symbol in a.precondPos else l.symbol in a.precondNeg
  {
    Lits(a.precondPos, true) + Lits(a.precondNeg, false)
  }

  /** `effnodes`: the literals the action makes hold. */
  function Effnodes(a: Action): (r: set<LitNode>)
    ensures forall l :: l in r <==> if l.isPos then l.symbol in a.effectAdd else l.symbol in a.effectRem
  {
    Lits(a.effectAdd, true) + Lits(a.effectRem, false)
  }

  /** `is_persistent`: the action needs exactly the literals it produces. */
  predicate Persistent(a: Action)
  {
    Prenodes(a) == Effnodes(a)
  }

  /** Persistence in terms of the action's four lists: positive
      preconditions and added fluents agree as sets, and so do negative
      preconditions and removed fluents. */
  lemma PersistentIff(a: Action)
    ensures Persistent(a) <==>
      Elements(a.precondPos) == Elements(a.effectAdd) && Elements(a.precondNeg) == Elements(a.effectRem)
  {
    if Persistent(a) {
      forall x | x in a.precondPos ensures x in a.effectAdd {
        assert LitNode(x, true) in Prenodes(a);
      }
      forall x | x in a.effectAdd ensures x in a.precondPos {
        assert LitNode(x, true) in Effnodes(a);
      }
      forall x | x in a.precondNeg ensures x in a.effectRem {
        assert LitNode(x, false) in Prenodes(a);
      }
      forall x | x in a.effectRem ensures x in a.precondNeg {
        assert LitNode(x, false) in Effnodes(a);
      }
    }
    if Elements(a.precondPos) == Elements(a.effectAdd) && Elements(a.precondNeg) == Elements(a.effectRem) {
      forall l ensures l in Prenodes(a) <==> l in Effnodes(a) {
        if l.isPos {
          assert l.symbol in a.precondPos <==> l.symbol in Elements(a.effectAdd);
        } else {
          assert l.symbol in a.precondNeg <==> l.symbol in Elements(a.effectRem);
        }
      }
    }
  }

  /** `PgNode_a.__eq__`: persistence, name and arguments agree; name and
      arguments together are the action's head. Equal actions are equal
      nodes. */
  function ActEq(a: Action, b: Action): (r: bool)
    ensures r <==> Persistent(a) == Persistent(b) && a.head == b.head
    ensures a == b ==> r
  {
    Persistent(a) == Persistent(b) && a.Name() == b.Name() && a.Args() == b.Args()
  }

  // --------------------------------------------------------------- no-ops

  /** `Noop_pos(f)`: needs `f` and adds it. */
  function NoopPos(f: Expr): Action
  {
    Action(Expr("Noop_pos", [f]), [f], [], [f], [])
  }

  /** `Noop_neg(f)`: needs `f` false and removes it. */
  function NoopNeg(f: Expr): Action
  {
    Action(Expr("Noop_neg", [f]), [], [f], [], [f])
  }

  /** `noop_actions`: a positive and a negative persistence action per
      fluent, in the order of the fluents. */
  function Noops(fluents: seq<Expr>): (r: seq<Action>)
    ensures |r| == 2 * |fluents|
    ensures forall i :: 0 <= i < |fluents| ==> r[2 * i] == NoopPos(fluents[i]) && r[2 * i + 1] == NoopNeg(fluents[i])
  {
    if fluents == [] then []
    else Noops(fluents[..|fluents| - 1]) + [NoopPos(fluents[|fluents| - 1]), NoopNeg(fluents[|fluents| - 1])]
  }

  /** Each no-op carries one literal from a level to the next: it needs
      exactly that literal and produces exactly that literal, so it is
      persistent. */
  lemma NoopCarries(f: Expr)
    ensures Prenodes(NoopPos(f)) == Effnodes(NoopPos(f)) == {LitNode(f, true)}
    ensures Prenodes(NoopNeg(f)) == Effnodes(NoopNeg(f)) == {LitNode(f, false)}
    ensures Persistent(NoopPos(f)) && Persistent(NoopNeg(f))
  {
  }

  /** Every literal over a fluent of the list has its no-op among `Noops`. */
  lemma NoopsCover(fluents: seq<Expr>, l: LitNode)
    requires l.symbol in fluents
    ensures exists a :: a in Noops(fluents) && Prenodes(a) == Effnodes(a) == {l}
  {
    var i :| 0 <= i < |fluents| && fluents[i] == l.symbol;
    NoopCarries(l.symbol);
    var a := if l.isPos then Noops(fluents)[2 * i] else Noops(fluents)[2 * i + 1];
    assert a in Noops(fluents);
  }

  // --------------------------------------------------------------- mutex

  /** A node of either kind, as a mutex relation stores it. */
  datatype Node = S(lit: LitNode) | A(act: Action)

  /** A mutex relation: `(x, y)` in it means `y` is in `x`'s mutex set. */
  type Mutex = set<(Node, Node)>

  /** `mutexify`: each node joins the other's mutex set; nodes of different
      kinds are a `TypeError` and leave the relation as it was. */
  function Mutexify(m: Mutex, n1: Node, n2: Node): (r: Result<Mutex>)
    ensures r.Failure? <==> n1.S? != n2.S?
    ensures r.Failure? ==> r.error == TypeError
    ensures r.Success? ==>
      && (n1, n2) in r.value && (n2, n1) in r.value && m <= r.value
      && forall p :: p in r.value && p !in m ==> p == (n1, n2) || p == (n2, n1)
  {
    if n1.S? != n2.S? then Failure(TypeError)
    else Success(m + {(n1, n2), (n2, n1)})
  }

  /** The switches of the graph: serial planning and the three optional
      action mutex tests. */
  datatype Flags = Flags(serial: bool, inconsistentEffects: bool, interference: bool, competingNeeds: bool)

  /** The constructor's defaults: everything on. */
  const DefaultFlags := Flags(true, true, true, true)

  /** How nodes are linked to the previous level (see the module comment). */
  datatype Linking = AsWritten | Intended

  /** Some element of `xs` occurs in `ys`: the `for ... if ... in ...:
      return True` scans of the action tests. */
  function Meets(xs: seq<Expr>, ys: seq<Expr>): (r: bool)
    ensures r <==> exists x :: x in xs && x in ys
  {
    if xs == [] then false
    else
      assert forall x :: x in xs <==> x == xs[0] || x in xs[1..];
      xs[0] in ys || Meets(xs[1..], ys)
  }

  /** `serialize_actions`: in a serial graph two non-persistent actions
      exclude each other. */
  function Serialize(f: Flags, a1: Action, a2: Action): bool
  {
    f.serial && !Persistent(a1) && !Persistent(a2)
  }

  /** `inconsistent_effects_mutex`: one action makes hold the negation of a
      literal the other makes hold. */
  function InconsistentEffects(f: Flags, a1: Action, a2: Action): (r: bool)
    ensures r <==> f.inconsistentEffects && exists l :: l in Effnodes(a1) && Negate(l) in Effnodes(a2)
  {
    if !f.inconsistentEffects then false
    else
      var r := Meets(a1.effectAdd, a2.effectRem) || Meets(a2.effectAdd, a1.effectRem);
      assert r ==> exists l :: l in Effnodes(a1) && Negate(l) in Effnodes(a2) by {
        if Meets(a1.effectAdd, a2.effectRem) {
          var e :| e in a1.effectAdd && e in a2.effectRem;
          assert LitNode(e, true) in Effnodes(a1) && Negate(LitNode(e, true)) in Effnodes(a2);
        } else if r {
          var e :| e in a2.effectAdd && e in a1.effectRem;
          assert LitNode(e, false) in Effnodes(a1) && Negate(LitNode(e, false)) in Effnodes(a2);
        }
      }
      r
  }

  /** `interference_mutex`: an effect of one action is the negation of a
      precondition of the other. */
  function Interference(f: Flags, a1: Action, a2: Action): (r: bool)
    ensures r <==> (f.interference &&
      ((exists l :: l in Effnodes(a1) && Negate(l) in Prenodes(a2)) ||
       (exists l :: l in Effnodes(a2) && Negate(l) in Prenodes(a1))))
  {
    if !f.interference then false
    else
      var r12 := Meets(a1.effectAdd, a2.precondNeg) || Meets(a1.effectRem, a2.precondPos);
      var r21 := Meets(a2.effectAdd, a1.precondNeg) || Meets(a2.effectRem, a1.precondPos);
      InterferesOneWay(a1, a2);
      InterferesOneWay(a2, a1);
      r12 || r21
  }

  lemma InterferesOneWay(a1: Action, a2: Action)
    ensures (Meets(a1.effectAdd, a2.precondNeg) || Meets(a1.effectRem, a2.precondPos)) <==>
      exists l :: l in Effnodes(a1) && Negate(l) in Prenodes(a2)
  {
    if Meets(a1.effectAdd, a2.precondNeg) {
      var e :| e in a1.effectAdd && e in a2.precondNeg;
      assert LitNode(e, true) in Effnodes(a1) && Negate(LitNode(e, true)) in Prenodes(a2);
    } else if Meets(a1.effectRem, a2.precondPos) {
      var e :| e in a1.effectRem && e in a2.precondPos;
      assert LitNode(e, false) in Effnodes(a1) && Negate(LitNode(e, false)) in Prenodes(a2);
    }
  }

  /** `competing_needs_mutex`: some parent of the first action is mutex with
      some parent of the second. */
  function CompetingNeeds(f: Flags, p1s: set<LitNode>, p2s: set<LitNode>, m: Mutex): bool
  {
    f.competingNeeds && exists p1, p2 :: p1 in p1s && p2 in p2s && (S(p1), S(p2)) in m
  }

  /** The parents of an action node placed on S-level `s`. */
  function ActParents(link: Linking, s: set<LitNode>, a: Action): set<LitNode>
  {
    match link
    case AsWritten => s
    case Intended => Prenodes(a)
  }

  /** `update_a_mutex`'s test for one pair of a level's actions: the tests
      run in turn and the first that holds decides. */
  function ActMutex(f: Flags, link: Linking, s: set<LitNode>, sm: Mutex, a1: Action, a2: Action): bool
  {
    || Serialize(f, a1, a2)
    || InconsistentEffects(f, a1, a2)
    || Interference(f, a1, a2)
    || CompetingNeeds(f, ActParents(link, s, a1), ActParents(link, s, a2), sm)
  }

  /** `negation_mutex`: the literals are each other's negation. */
  function NegationMutex(l1: LitNode, l2: LitNode): (r: bool)
    ensures r <==> l2 == Negate(l1)
    ensures r <==> l1 == Negate(l2)
  {
    l1.symbol == l2.symbol && l1.isPos != l2.isPos
  }

  /** `inconsistent_support_mutex`: every parent of the first literal is
      mutex with every parent of the second; true when either has none. */
  function InconsistentSupport(p1s: set<Action>, p2s: set<Action>, m: Mutex): bool
  {
    forall p1, p2 :: p1 in p1s && p2 in p2s ==> (A(p1), A(p2)) in m
  }

  /** The first action of the level, from position `k` on, that produces
      `l`: the node whose effect instance the S-level set keeps. */
  function FirstProducer(acts: seq<Action>, l: LitNode, k: nat): (r: Option<nat>)
    requires k <= |acts|
    ensures r.None? <==> forall i :: k <= i < |acts| ==> l !in Effnodes(acts[i])
    ensures r.Some? ==>
      && k <= r.value < |acts| && l in Effnodes(acts[r.value])
      && forall i :: k <= i < r.value ==> l !in Effnodes(acts[i])
    decreases |acts| - k
  {
    if k == |acts| then None
    else if l in Effnodes(acts[k]) then Some(k)
    else FirstProducer(acts, l, k + 1)
  }

  /** The parents of literal `l` on the S-level that A-level `acts` builds. */
  function LitParents(link: Linking, acts: seq<Action>, l: LitNode): set<Action>
  {
    match link
    case AsWritten =>
      (match FirstProducer(acts, l, 0)
       case None => {}
       case Some(i) => {acts[i]})
    case Intended => set a | a in acts && l in Effnodes(a)
  }

  /** `update_s_mutex`'s test for one pair of a level's literals. */
  function LitMutex(link: Linking, acts: seq<Action>, am: Mutex, l1: LitNode, l2: LitNode): bool
  {
    NegationMutex(l1, l2) || InconsistentSupport(LitParents(link, acts, l1), LitParents(link, acts, l2), am)
  }

  // --------------------------------------------------------------- levels

  /** `add_action_level`: the actions of the pool, in pool order, whose
      preconditions all hold on S-level `s`. */
  function ActionLevel(pool: seq<Action>, s: set<LitNode>): seq<Action>
  {
    if pool == [] then []
    else (if Prenodes(pool[0]) <= s then [pool[0]] else []) + ActionLevel(pool[1..], s)
  }

  /** An action is on the A-level exactly when it is in the pool and its
      preconditions all hold on the S-level. */
  lemma {:induction false} ActionLevelIff(pool: seq<Action>, s: set<LitNode>)
    ensures forall a :: a in ActionLevel(pool, s) <==> a in pool && Prenodes(a) <= s
    ensures |ActionLevel(pool, s)| <= |pool|
  {
    if pool != [] {
      ActionLevelIff(pool[1..], s);
      assert forall a :: a in pool <==> a == pool[0] || a in pool[1..];
    }
  }

  /** `add_literal_level`: every literal some action of the level makes hold. */
  function LiteralLevel(acts: seq<Action>): set<LitNode>
  {
    if acts == [] then {} else LiteralLevel(acts[..|acts| - 1]) + Effnodes(acts[|acts| - 1])
  }

  /** A literal is on the next S-level exactly when some action of the
      A-level makes it hold. */
  lemma {:induction false} LiteralLevelIff(acts: seq<Action>)
    ensures forall l :: l in LiteralLevel(acts) <==> exists a :: a in acts && l in Effnodes(a)
  {
    if acts != [] {
      LiteralLevelIff(acts[..|acts| - 1]);
      assert forall a :: a in acts <==> a in acts[..|acts| - 1] || a == acts[|acts| - 1];
    }
  }

  /** S0: the state's fluents as positive literals and its false fluents as
      negative ones. */
  function InitialLevel(st: State): (r: set<LitNode>)
    ensures forall l :: l in r <==> if l.isPos then l.symbol in st.pos else l.symbol in st.neg
  {
    (set f | f in st.pos :: LitNode(f, true)) + (set f | f in st.neg :: LitNode(f, false))
  }

  // -------------------------------------------------------- mutex update

  /** The pairs `mutexify`'d while position `i` is compared with positions
      `i + 1 .. j - 1`: the inner loop of `update_a_mutex` and
      `update_s_mutex`. */
  function RowPairs(xs: seq<Node>, test: (Node, Node) -> bool, i: nat, j: nat): Mutex
    requires i < j <= |xs|
    decreases j
  {
    if j == i + 1 then {}
    else
      RowPairs(xs, test, i, j - 1) +
      (if test(xs[i], xs[j - 1]) then {(xs[i], xs[j - 1]), (xs[j - 1], xs[i])} else {})
  }

  /** The pairs `mutexify`'d by the outer loop's rows `0 .. i - 1`. */
  function RowsPairs(xs: seq<Node>, test: (Node, Node) -> bool, i: nat): Mutex
    requires i <= |xs|
  {
    if i == 0 then {} else RowsPairs(xs, test, i - 1) + RowPairs(xs, test, i - 1, |xs|)
  }

  /** `m` relates, in both directions, exactly the elements at list positions
      `a < b` that pass `test`. */
  ghost predicate Pairs(m: Mutex, xs: seq<Node>, test: (Node, Node) -> bool)
  {
    forall x, y :: (x, y) in m <==>
      exists a, b :: 0 <= a < b < |xs| && test(xs[a], xs[b]) &&
        ((x, y) == (xs[a], xs[b]) || (x, y) == (xs[b], xs[a]))
  }

  predicate SameKind(xs: seq<Node>)
  {
    (forall k :: 0 <= k < |xs| ==> xs[k].S?) || (forall k :: 0 <= k < |xs| ==> xs[k].A?)
  }

  /** The pair loops of `update_a_mutex` and `update_s_mutex`: every pair of
      distinct list positions is tested once and, when the test holds,
      `mutexify`'d. */
  method MutexPairs(xs: seq<Node>, test: (Node, Node) -> bool) returns (m: Mutex)
    requires SameKind(xs)
    ensures m == RowsPairs(xs, test, |xs|)
    ensures Pairs(m, xs, test)
  {
    m := {};
    var i := 0;
    while i < |xs| - 1
      invariant 0 <= i <= |xs| && (i == 0 || i <= |xs| - 1) && m == RowsPairs(xs, test, i)
    {
      var j := i + 1;
      while j < |xs|
        invariant i + 1 <= j <= |xs|
        invariant m == RowsPairs(xs, test, i) + RowPairs(xs, test, i, j)
      {
        if test(xs[i], xs[j]) {
          m := Mutexify(m, xs[i], xs[j]).value;
        }
        j := j + 1;
      }
      i := i + 1;
    }
    RowsAll(xs, test, i);
    if |xs| > 0 {
      assert RowsPairs(xs, test, |xs|) == m + RowPairs(xs, test, |xs| - 1, |xs|);
    }
  }

  /** Row `i` up to `j` relates `xs[i]` with each later `xs[b]`, `b < j`,
      that passes the test. */
  lemma {:induction false} RowAll(xs: seq<Node>, test: (Node, Node) -> bool, i: nat, j: nat)
    requires i < j <= |xs|
    ensures forall x, y :: (x, y) in RowPairs(xs, test, i, j) <==>
      exists b :: i < b < j && test(xs[i], xs[b]) && ((x, y) == (xs[i], xs[b]) || (x, y) == (xs[b], xs[i]))
    decreases j
  {
    if j > i + 1 {
      RowAll(xs, test, i, j - 1);
    }
  }

  /** Rows `0 .. i - 1` relate the pairs at positions `a < b` with `a < i`. */
  lemma {:induction false} RowsAll(xs: seq<Node>, test: (Node, Node) -> bool, i: nat)
    requires i <= |xs|
    ensures forall x, y :: (x, y) in RowsPairs(xs, test, i) <==>
      exists a, b :: 0 <= a < b < |xs| && a < i && test(xs[a], xs[b]) &&
        ((x, y) == (xs[a], xs[b]) || (x, y) == (xs[b], xs[a]))
  {
    if i > 0 {
      RowsAll(xs, test, i - 1);
      RowAll(xs, test, i - 1, |xs|);
      forall x, y
        ensures (x, y) in RowsPairs(xs, test, i) <==>
          (exists a, b :: 0 <= a < b < |xs| && a < i && test(xs[a], xs[b]) &&
            ((x, y) == (xs[a], xs[b]) || (x, y) == (xs[b], xs[a])))
      {
        RowsOne(xs, test, i, x, y);
      }
    }
  }

  /** One pair: it is in the first `i` rows when it is in the first
      `i - 1` rows or in row `i - 1`. */
  lemma RowsOne(xs: seq<Node>, test: (Node, Node) -> bool, i: nat, x: Node, y: Node)
    requires 0 < i <= |xs|
    requires (x, y) in RowsPairs(xs, test, i - 1) <==>
      (exists a, b :: 0 <= a < b < |xs| && a < i - 1 && test(xs[a], xs[b]) &&
        ((x, y) == (xs[a], xs[b]) || (x, y) == (xs[b], xs[a])))
    requires (x, y) in RowPairs(xs, test, i - 1, |xs|) <==>
      (exists b :: i - 1 < b < |xs| && test(xs[i - 1], xs[b]) &&
        ((x, y) == (xs[i - 1], xs[b]) || (x, y) == (xs[b], xs[i - 1])))
    ensures (x, y) in RowsPairs(xs, test, i) <==>
      (exists a, b :: 0 <= a < b < |xs| && a < i && test(xs[a], xs[b]) &&
        ((x, y) == (xs[a], xs[b]) || (x, y) == (xs[b], xs[a])))
  {
    if (x, y) in RowPairs(xs, test, i - 1, |xs|) {
      var b :| i - 1 < b < |xs| && test(xs[i - 1], xs[b]) &&
        ((x, y) == (xs[i - 1], xs[b]) || (x, y) == (xs[b], xs[i - 1]));
      assert 0 <= i - 1 < b < |xs|;
    }
    if exists a, b :: 0 <= a < b < |xs| && a < i && test(xs[a], xs[b]) &&
        ((x, y) == (xs[a], xs[b]) || (x, y) == (xs[b], xs[a])) {
      var a, b :| 0 <= a < b < |xs| && a < i && test(xs[a], xs[b]) &&
        ((x, y) == (xs[a], xs[b]) || (x, y) == (xs[b], xs[a]));
      if a == i - 1 {
        assert (x, y) in RowPairs(xs, test, i - 1, |xs|);
      }
    }
  }

  /** A relation that holds in both directions or in neither. */
  ghost predicate Symmetric(m: Mutex)
  {
    forall x, y :: (x, y) in m ==> (y, x) in m
  }

  lemma PairsSymmetric(m: Mutex, xs: seq<Node>, test: (Node, Node) -> bool)
    requires Pairs(m, xs, test)
    ensures Symmetric(m)
  {
  }

  /** With a symmetric test over a list without repeats, visiting position
      pairs relates exactly the pairs of distinct elements that pass the
      test, whatever the order of the list. */
  lemma PairsOfSet(m: Mutex, xs: seq<Node>, test: (Node, Node) -> bool)
    requires Pairs(m, xs, test) && Distinct(xs)
    requires forall x, y :: test(x, y) == test(y, x)
    ensures forall x, y :: (x, y) in m <==> x in xs && y in xs && x != y && test(x, y)
  {
    forall x, y | x in xs && y in xs && x != y && test(x, y)
      ensures (x, y) in m
    {
      var a :| 0 <= a < |xs| && xs[a] == x;
      var b :| 0 <= b < |xs| && xs[b] == y;
      if a < b {
        assert test(xs[a], xs[b]);
      } else {
        assert test(xs[b], xs[a]);
      }
    }
  }

  /** `list(nodeset)`: the set's elements once each, in some order. */
  method Enumerate<T>(s: set<T>) returns (xs: seq<T>)
    ensures Elements(xs) == s && Distinct(xs)
  {
    xs := [];
    var rest := s;
    while rest != {}
      invariant forall x :: x in s <==> x in xs || x in rest
      invariant forall x :: x in xs ==> x !in rest
      invariant Distinct(xs)
      decreases |rest|
    {
      var x :| x in rest;
      xs := xs + [x];
      rest := rest - {x};
    }
  }

  /** The action test of one level, on nodes. */
  function ActTest(f: Flags, link: Linking, s: set<LitNode>, sm: Mutex): (Node, Node) -> bool
  {
    (x: Node, y: Node) => x.A? && y.A? && ActMutex(f, link, s, sm, x.act, y.act)
  }

  /** The literal test of one level, on nodes. */
  function LitTest(link: Linking, acts: seq<Action>, am: Mutex): (Node, Node) -> bool
  {
    (x: Node, y: Node) => x.S? && y.S? && LitMutex(link, acts, am, x.lit, y.lit)
  }

  function ActNodes(acts: seq<Action>): (r: seq<Node>)
    ensures |r| == |acts| && forall k :: 0 <= k < |acts| ==> r[k] == A(acts[k])
  {
    seq(|acts|, k requires 0 <= k < |acts| => A(acts[k]))
  }

  /** The literal mutex relation of an S-level: exactly the pairs of
      distinct literals of the level that pass the literal test. */
  ghost predicate LitMutexes(m: Mutex, s: set<LitNode>, link: Linking, acts: seq<Action>, am: Mutex)
  {
    forall x, y :: (x, y) in m <==>
      x.S? && y.S? && x.lit in s && y.lit in s && x != y && LitMutex(link, acts, am, x.lit, y.lit)
  }

  lemma InconsistentEffectsSymmetric(f: Flags, a1: Action, a2: Action)
    ensures InconsistentEffects(f, a1, a2) == InconsistentEffects(f, a2, a1)
  {
    if InconsistentEffects(f, a1, a2) {
      var l :| l in Effnodes(a1) && Negate(l) in Effnodes(a2);
      assert Negate(Negate(l)) == l;
    }
    if InconsistentEffects(f, a2, a1) {
      var l :| l in Effnodes(a2) && Negate(l) in Effnodes(a1);
      assert Negate(Negate(l)) == l;
    }
  }

  /** The action test does not depend on the order of the pair once the
      literal mutexes it reads are symmetric. */
  lemma ActMutexSymmetric(f: Flags, link: Linking, s: set<LitNode>, sm: Mutex, a1: Action, a2: Action)
    requires Symmetric(sm)
    ensures ActMutex(f, link, s, sm, a1, a2) == ActMutex(f, link, s, sm, a2, a1)
  {
    InconsistentEffectsSymmetric(f, a1, a2);
  }

  /** The literal test does not depend on the order of the pair once the
      action mutexes it reads are symmetric. */
  lemma LitMutexSymmetric(link: Linking, acts: seq<Action>, am: Mutex, l1: LitNode, l2: LitNode)
    requires Symmetric(am)
    ensures LitMutex(link, acts, am, l1, l2) == LitMutex(link, acts, am, l2, l1)
  {
  }

  /** The mutex relation `update_a_mutex` leaves on A-level `acts`. */
  function ActMutexes(f: Flags, link: Linking, s: set<LitNode>, sm: Mutex, acts: seq<Action>): Mutex
  {
    RowsPairs(ActNodes(acts), ActTest(f, link, s, sm), |acts|)
  }

  /** The mutex relation `update_s_mutex` leaves on S-level `s`. */
  function LitMutexSet(link: Linking, acts: seq<Action>, am: Mutex, s: set<LitNode>): Mutex
  {
    set x, y | x in s && y in s && x != y && LitMutex(link, acts, am, x, y) :: (S(x), S(y))
  }

  /** An A-level's mutexes relate, both ways, the actions at positions
      `i < j` that pass the action test. */
  lemma ActMutexesPairs(f: Flags, link: Linking, s: set<LitNode>, sm: Mutex, acts: seq<Action>)
    ensures Pairs(ActMutexes(f, link, s, sm, acts), ActNodes(acts), ActTest(f, link, s, sm))
    ensures Symmetric(ActMutexes(f, link, s, sm, acts))
  {
    RowsAll(ActNodes(acts), ActTest(f, link, s, sm), |acts|);
  }

  /** `update_a_mutex` on A-level `acts` placed on S-level `s`. */
  method UpdateActMutex(f: Flags, link: Linking, s: set<LitNode>, sm: Mutex, acts: seq<Action>)
    returns (am: Mutex)
    ensures am == ActMutexes(f, link, s, sm, acts)
    ensures Pairs(am, ActNodes(acts), ActTest(f, link, s, sm))
    ensures Symmetric(am)
  {
    am := MutexPairs(ActNodes(acts), ActTest(f, link, s, sm));
    PairsSymmetric(am, ActNodes(acts), ActTest(f, link, s, sm));
  }

  /** `update_s_mutex` on S-level `s` built by `acts`, whose mutexes are
      `am`: whatever order the set is listed in, exactly the pairs of
      distinct literals of the level that pass the literal test. */
  method UpdateLitMutex(link: Linking, acts: seq<Action>, am: Mutex, s: set<LitNode>)
    returns (sm: Mutex)
    requires Symmetric(am)
    ensures LitMutexes(sm, s, link, acts, am)
    ensures sm == LitMutexSet(link, acts, am, s)
    ensures Symmetric(sm)
  {
    var lits := Enumerate(s);
    sm := MutexPairs(LitNodes(lits), LitTest(link, acts, am));
    ListedPairs(sm, lits, s, link, acts, am);
    LitMutexesSet(sm, s, link, acts, am);
  }

  function LitNodes(lits: seq<LitNode>): (r: seq<Node>)
    ensures |r| == |lits| && forall k :: 0 <= k < |lits| ==> r[k] == S(lits[k])
  {
    seq(|lits|, k requires 0 <= k < |lits| => S(lits[k]))
  }

  /** Visiting the position pairs of any listing of the S-level relates
      exactly its pairs of distinct literals that pass the literal test. */
  lemma ListedPairs(m: Mutex, lits: seq<LitNode>, s: set<LitNode>, link: Linking, acts: seq<Action>, am: Mutex)
    requires Elements(lits) == s && Distinct(lits) && Symmetric(am)
    requires Pairs(m, LitNodes(lits), LitTest(link, acts, am))
    ensures LitMutexes(m, s, link, acts, am) && Symmetric(m)
  {
    var xs := LitNodes(lits);
    var test := LitTest(link, acts, am);
    assert Distinct(xs) by {
      forall a, b | 0 <= a < b < |xs| ensures xs[a] != xs[b] {
        assert lits[a] != lits[b];
      }
    }
    forall x, y ensures test(x, y) == test(y, x) {
      if x.S? && y.S? {
        LitMutexSymmetric(link, acts, am, x.lit, y.lit);
      }
    }
    PairsOfSet(m, xs, test);
    forall x, y ensures (x, y) in m <==>
      x.S? && y.S? && x.lit in s && y.lit in s && x != y && LitMutex(link, acts, am, x.lit, y.lit)
    {
      if x.S? && x.lit in s {
        var a :| 0 <= a < |lits| && lits[a] == x.lit;
        assert xs[a] == x;
      }
      if y.S? && y.lit in s {
        var b :| 0 <= b < |lits| && lits[b] == y.lit;
        assert xs[b] == y;
      }
    }
  }

  lemma LitMutexesSet(m: Mutex, s: set<LitNode>, link: Linking, acts: seq<Action>, am: Mutex)
    requires LitMutexes(m, s, link, acts, am)
    ensures m == LitMutexSet(link, acts, am, s)
  {
    forall p | p in m ensures p in LitMutexSet(link, acts, am, s) {
      assert p == (S(p.0.lit), S(p.1.lit));
    }
  }

  // ---------------------------------------------------------------- graph

  /** The levels of a planning graph: S-levels, A-levels (lists, in pool
      order) and the mutex relation of each level. */
  datatype Graph = Graph(sLevels: seq<set<LitNode>>, aLevels: seq<seq<Action>>,
                         sMutex: seq<Mutex>, aMutex: seq<Mutex>)

  /** One more S-level than A-levels, each with its mutex relation. */
  predicate Shaped(g: Graph)
  {
    |g.sLevels| == |g.sMutex| == |g.aLevels| + 1 && |g.aMutex| == |g.aLevels|
  }

  /** A-level `k`, its mutexes, S-level `k + 1` and its mutexes are what one
      turn of `create_graph`'s loop computes from S-level `k`. */
  ghost predicate LevelOk(g: Graph, pool: seq<Action>, f: Flags, link: Linking, k: nat)
    requires Shaped(g) && k < |g.aLevels|
  {
    && g.aLevels[k] == ActionLevel(pool, g.sLevels[k])
    && g.aMutex[k] == ActMutexes(f, link, g.sLevels[k], g.sMutex[k], g.aLevels[k])
    && g.sLevels[k + 1] == LiteralLevel(g.aLevels[k])
    && g.sMutex[k + 1] == LitMutexSet(link, g.aLevels[k], g.aMutex[k], g.sLevels[k + 1])
  }

  /** Every level follows from the one before; S0 has no mutexes. */
  ghost predicate Levels(g: Graph, pool: seq<Action>, f: Flags, link: Linking)
  {
    && Shaped(g) && g.sMutex[0] == {}
    && forall k :: 0 <= k < |g.aLevels| ==> LevelOk(g, pool, f, link, k)
  }

  /** A finished graph: its levels follow one from another, and its
      S-levels are finished. */
  ghost predicate Built(g: Graph, pool: seq<Action>, s0: set<LitNode>, f: Flags, link: Linking)
  {
    Levels(g, pool, f, link) && Leveled(g.sLevels, s0)
  }

  /** Each S-level contains the one before it. */
  ghost predicate Growing(levels: seq<set<LitNode>>)
  {
    forall k :: 0 <= k < |levels| - 1 ==> levels[k] <= levels[k + 1]
  }

  lemma {:induction false} GrowingMonotone(levels: seq<set<LitNode>>, i: nat, j: nat)
    requires Growing(levels) && i <= j < |levels|
    ensures levels[i] <= levels[j]
    decreases j - i
  {
    if i < j {
      GrowingMonotone(levels, i + 1, j);
    }
  }

  /** More literals enable more actions, which produce more literals. */
  lemma StepMonotone(pool: seq<Action>, s: set<LitNode>, s': set<LitNode>)
    requires s <= s'
    ensures LiteralLevel(ActionLevel(pool, s)) <= LiteralLevel(ActionLevel(pool, s'))
  {
    ActionLevelIff(pool, s);
    ActionLevelIff(pool, s');
    LiteralLevelIff(ActionLevel(pool, s));
    LiteralLevelIff(ActionLevel(pool, s'));
    forall l | l in LiteralLevel(ActionLevel(pool, s))
      ensures l in LiteralLevel(ActionLevel(pool, s'))
    {
      var a :| a in ActionLevel(pool, s) && l in Effnodes(a);
      assert a in ActionLevel(pool, s');
    }
  }

  /** Whatever a level holds, a next S-level only has effects of the pool. */
  lemma StepBounded(pool: seq<Action>, s: set<LitNode>)
    ensures LiteralLevel(ActionLevel(pool, s)) <= LiteralLevel(pool)
  {
    ActionLevelIff(pool, s);
    LiteralLevelIff(ActionLevel(pool, s));
    LiteralLevelIff(pool);
  }

  /** The levels one turn of `create_graph`'s loop appends: A-level `k`
      with its mutexes, then S-level `k + 1` with its mutexes. */
  function AddLevel(g: Graph, pool: seq<Action>, f: Flags, link: Linking): (r: Graph)
    requires Shaped(g)
    ensures Shaped(r) && |r.aLevels| == |g.aLevels| + 1
  {
    var k := |g.aLevels|;
    var acts := ActionLevel(pool, g.sLevels[k]);
    var am := ActMutexes(f, link, g.sLevels[k], g.sMutex[k], acts);
    var s := LiteralLevel(acts);
    Graph(g.sLevels + [s], g.aLevels + [acts], g.sMutex + [LitMutexSet(link, acts, am, s)], g.aMutex + [am])
  }

  /** The graph after `n` turns of the loop from S-level `s0`. */
  function Unroll(pool: seq<Action>, s0: set<LitNode>, f: Flags, link: Linking, n: nat): (r: Graph)
    ensures Shaped(r) && |r.aLevels| == n
  {
    if n == 0 then Graph([s0], [], [{}], []) else AddLevel(Unroll(pool, s0, f, link, n - 1), pool, f, link)
  }

  /** Appending a turn's levels keeps every level following from the one
      before it. */
  lemma AddLevelOk(g: Graph, pool: seq<Action>, f: Flags, link: Linking)
    requires Levels(g, pool, f, link)
    ensures Levels(AddLevel(g, pool, f, link), pool, f, link)
    ensures AddLevel(g, pool, f, link).sLevels[..|g.sLevels|] == g.sLevels
  {
    var g' := AddLevel(g, pool, f, link);
    forall j | 0 <= j < |g'.aLevels|
      ensures LevelOk(g', pool, f, link, j)
    {
      if j < |g.aLevels| {
        assert LevelOk(g, pool, f, link, j);
      }
    }
  }

  /** Every unrolled graph starts at `s0`, and each of its levels follows
      from the one before it. */
  lemma {:induction false} UnrollLevels(pool: seq<Action>, s0: set<LitNode>, f: Flags, link: Linking, n: nat)
    ensures Levels(Unroll(pool, s0, f, link, n), pool, f, link)
    ensures Unroll(pool, s0, f, link, n).sLevels[0] == s0
  {
    if n > 0 {
      UnrollLevels(pool, s0, f, link, n - 1);
      AddLevelOk(Unroll(pool, s0, f, link, n - 1), pool, f, link);
    }
  }

  /** One turn of `create_graph`'s loop: `add_action_level`,
      `update_a_mutex`, `add_literal_level`, `update_s_mutex`. The mutex
      loops compute what `AddLevel` describes. */
  method Grow(g: Graph, pool: seq<Action>, f: Flags, link: Linking) returns (g': Graph)
    requires Shaped(g)
    ensures g' == AddLevel(g, pool, f, link)
  {
    var k := |g.aLevels|;
    var acts := ActionLevel(pool, g.sLevels[k]);
    var am := UpdateActMutex(f, link, g.sLevels[k], g.sMutex[k], acts);
    var s := LiteralLevel(acts);
    var sm := UpdateLitMutex(link, acts, am, s);
    g' := Graph(g.sLevels + [s], g.aLevels + [acts], g.sMutex + [sm], g.aMutex + [am]);
  }

  /** The S-level one turn of the loop builds from S-level `s`. */
  function Next(pool: seq<Action>, s: set<LitNode>): set<LitNode>
  {
    LiteralLevel(ActionLevel(pool, s))
  }

  /** The S-levels of a graph under construction: they start at `s0`, each
      is built from the one before it, each contains and differs from the
      one before it, and the newest stays within `universe`. */
  ghost predicate Chain(levels: seq<set<LitNode>>, pool: seq<Action>, s0: set<LitNode>, universe: set<LitNode>)
  {
    && |levels| >= 1 && levels[0] == s0 && Growing(levels)
    && levels[|levels| - 1] <= universe
    && forall k :: 0 <= k < |levels| - 1 ==> levels[k + 1] == Next(pool, levels[k]) && levels[k + 1] != levels[k]
  }

  /** The chain facts of one turn: the next S-level contains the last one
      and stays in the universe; if it equals the last one the levels are
      finished, otherwise the chain goes on and less of the universe is
      left. */
  lemma ChainStep(levels: seq<set<LitNode>>, levels': seq<set<LitNode>>, pool: seq<Action>,
                  s0: set<LitNode>, universe: set<LitNode>)
    requires universe == s0 + LiteralLevel(pool) && s0 <= Next(pool, s0)
    requires Chain(levels, pool, s0, universe)
    requires levels' == levels + [Next(pool, levels[|levels| - 1])]
    ensures levels'[|levels|] == levels[|levels| - 1] ==> Leveled(levels', s0)
    ensures levels'[|levels|] != levels[|levels| - 1] ==>
      && Chain(levels', pool, s0, universe)
      && |universe - levels'[|levels|]| < |universe - levels[|levels| - 1]|
  {
    var n := |levels| - 1;
    var last := levels[n];
    var next := Next(pool, last);
    if n != 0 {
      StepMonotone(pool, levels[n - 1], last);
    }
    StepBounded(pool, last);
    Extend(levels, next);
    if next != last {
      ChainExtend(levels, pool, s0, universe, next);
      ObservedGrows(universe, last, next);
    } else {
      ChainLeveled(levels, pool, s0, universe);
    }
  }

  lemma ChainExtend(levels: seq<set<LitNode>>, pool: seq<Action>, s0: set<LitNode>, universe: set<LitNode>,
                    next: set<LitNode>)
    requires Chain(levels, pool, s0, universe) && Growing(levels + [next]) && next <= universe
    requires next == Next(pool, levels[|levels| - 1]) && next != levels[|levels| - 1]
    ensures Chain(levels + [next], pool, s0, universe)
  {
    var levels' := levels + [next];
    forall k | 0 <= k < |levels'| - 1
      ensures levels'[k + 1] == Next(pool, levels'[k]) && levels'[k + 1] != levels'[k]
    {
      assert levels'[k] == levels[k];
    }
  }

  /** The S-levels of a finished graph: they start at `s0`, each contains
      the one before it, and the newest is the first to equal the one
      before it. */
  ghost predicate Leveled(levels: seq<set<LitNode>>, s0: set<LitNode>)
  {
    && |levels| >= 2 && levels[0] == s0 && Growing(levels)
    && levels[|levels| - 1] == levels[|levels| - 2]
    && forall k :: 0 <= k < |levels| - 2 ==> levels[k + 1] != levels[k]
  }

  /** A chain whose next level repeats its last one is finished. */
  lemma ChainLeveled(levels: seq<set<LitNode>>, pool: seq<Action>, s0: set<LitNode>, universe: set<LitNode>)
    requires Chain(levels, pool, s0, universe) && Growing(levels + [Next(pool, levels[|levels| - 1])])
    requires Next(pool, levels[|levels| - 1]) == levels[|levels| - 1]
    ensures Leveled(levels + [Next(pool, levels[|levels| - 1])], s0)
  {
    var levels' := levels + [Next(pool, levels[|levels| - 1])];
    forall k | 0 <= k < |levels'| - 2
      ensures levels'[k + 1] != levels'[k]
    {
      assert levels'[k] == levels[k] && levels'[k + 1] == levels[k + 1];
    }
  }

  /** Appending a level that contains the last one keeps the levels
      growing. */
  lemma Extend(levels: seq<set<LitNode>>, next: set<LitNode>)
    requires |levels| >= 1 && Growing(levels) && levels[|levels| - 1] <= next
    ensures Growing(levels + [next])
  {
  }

  /** One turn of `create_graph`'s loop and its test whether the graph
      has leveled off. */
  method Turn(g: Graph, pool: seq<Action>, s0: set<LitNode>, f: Flags, link: Linking, ghost universe: set<LitNode>)
    returns (g': Graph, leveled: bool)
    requires universe == s0 + LiteralLevel(pool) && s0 <= Next(pool, s0)
    requires g == Unroll(pool, s0, f, link, |g.aLevels|) && Chain(g.sLevels, pool, s0, universe)
    ensures g' == Unroll(pool, s0, f, link, |g'.aLevels|) && |g'.aLevels| == |g.aLevels| + 1
    ensures leveled <==> g'.sLevels[|g'.aLevels|] == g'.sLevels[|g.aLevels|]
    ensures leveled ==> Leveled(g'.sLevels, s0)
    ensures !leveled ==>
      && Chain(g'.sLevels, pool, s0, universe)
      && |universe - g'.sLevels[|g'.aLevels|]| < |universe - g.sLevels[|g.aLevels|]|
  {
    var n := |g.aLevels|;
    g' := Grow(g, pool, f, link);
    ChainStep(g.sLevels, g'.sLevels, pool, s0, universe);
    leveled := g'.sLevels[n + 1] == g'.sLevels[n];
  }

  /** `create_graph`: levels are added until the newest S-level equals the
      one before it. Asked to build a graph that already has levels, it
      fails. The loop ends because each S-level that differs from the one
      before it is larger and all of them stay within `s0` and the pool's
      effects; this needs every literal of `s0` to reach S1, which the
      no-ops guarantee. */
  method CreateGraph(g0: Graph, pool: seq<Action>, s0: set<LitNode>, f: Flags, link: Linking)
    returns (r: Result<Graph>)
    requires s0 <= LiteralLevel(ActionLevel(pool, s0))
    ensures r.Failure? <==> g0.sLevels != [] || g0.aLevels != []
    ensures r.Failure? ==> r.error == AlreadyBuilt
    ensures r.Success? ==> Built(r.value, pool, s0, f, link)
  {
    if g0.sLevels != [] || g0.aLevels != [] {
      return Failure(AlreadyBuilt);
    }
    var universe := s0 + LiteralLevel(pool);
    var g := Graph([s0], [], [{}], []);
    var leveled := false;
    while !leveled
      invariant g == Unroll(pool, s0, f, link, |g.aLevels|)
      invariant leveled ==> Leveled(g.sLevels, s0)
      invariant !leveled ==> Chain(g.sLevels, pool, s0, universe)
      decreases if leveled then 0 else 1, |universe - g.sLevels[|g.aLevels|]|
    {
      g, leveled := Turn(g, pool, s0, f, link, universe);
    }
    UnrollLevels(pool, s0, f, link, |g.aLevels|);
    return Success(g);
  }

  /** The literals of a state that decodes from the state map all have
      their no-ops in the pool, so they all reach S1. */
  lemma NoopsKeep(actions: seq<Action>, stateMap: seq<Expr>, st: State)
    requires st.pos + st.neg <= Elements(stateMap)
    ensures var pool := actions + Noops(stateMap);
      InitialLevel(st) <= LiteralLevel(ActionLevel(pool, InitialLevel(st)))
  {
    var pool := actions + Noops(stateMap);
    var s0 := InitialLevel(st);
    ActionLevelIff(pool, s0);
    LiteralLevelIff(ActionLevel(pool, s0));
    forall l | l in s0
      ensures l in LiteralLevel(ActionLevel(pool, s0))
    {
      NoopsCover(stateMap, l);
      var a :| a in Noops(stateMap) && Prenodes(a) == Effnodes(a) == {l};
      assert a in pool;
      assert a in ActionLevel(pool, s0);
    }
  }

  /** The `PlanningGraph` constructor: the problem's actions plus a no-op
      pair per fluent of the state map, built from the state's literals.
      The S-levels never lose a literal. */
  method Build(actions: seq<Action>, stateMap: seq<Expr>, st: State, f: Flags, link: Linking)
    returns (g: Graph)
    requires st.pos + st.neg <= Elements(stateMap)
    ensures Built(g, actions + Noops(stateMap), InitialLevel(st), f, link)
    ensures forall i, j :: 0 <= i <= j < |g.sLevels| ==> g.sLevels[i] <= g.sLevels[j]
  {
    NoopsKeep(actions, stateMap, st);
    var r := CreateGraph(Graph([], [], [], []), actions + Noops(stateMap), InitialLevel(st), f, link);
    g := r.value;
    forall i, j | 0 <= i <= j < |g.sLevels|
      ensures g.sLevels[i] <= g.sLevels[j]
    {
      GrowingMonotone(g.sLevels, i, j);
    }
  }
}
