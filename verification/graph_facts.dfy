/**
 * What a built planning graph means, and how the two ways of linking nodes
 * to their parents (`Linking`) differ.
 *
 * The S-levels, and so the level-sum heuristic, depend on neither the
 * mutex switches nor the linking. The mutexes do: linking an action to
 * every literal of its S-level makes one mutex pair of that level enough
 * for every two actions to have competing needs, and linking a literal
 * only to its first producer lets two literals that one action produces
 * together have inconsistent support.
 */
module GraphFacts {
  import opened Wrappers
  import opened Collections
  import opened Strips
  import opened PlanningGraph

  /** The S-levels after `n` turns follow from `s0` and the pool alone:
      the mutex switches and the linking only change the mutexes. */
  lemma {:induction false} SLevelsIndependent(pool: seq<Action>, s0: set<LitNode>, f: Flags, link: Linking,
                                              f': Flags, link': Linking, n: nat)
    ensures Unroll(pool, s0, f, link, n).sLevels == Unroll(pool, s0, f', link', n).sLevels
    ensures Unroll(pool, s0, f, link, n).aLevels == Unroll(pool, s0, f', link', n).aLevels
  {
    if n > 0 {
      SLevelsIndependent(pool, s0, f, link, f', link', n - 1);
      var g := Unroll(pool, s0, f, link, n - 1);
      var g' := Unroll(pool, s0, f', link', n - 1);
      var k := n - 1;
      assert Unroll(pool, s0, f, link, n).sLevels == g.sLevels + [LiteralLevel(ActionLevel(pool, g.sLevels[k]))];
      assert Unroll(pool, s0, f', link', n).sLevels == g'.sLevels + [LiteralLevel(ActionLevel(pool, g'.sLevels[k]))];
    }
  }

  /** In a built graph, each A-level's mutexes relate, both ways, the
      actions at list positions `i < j` that pass the action test, and each
      later S-level's mutexes relate exactly its pairs of distinct literals
      that pass the literal test. */
  lemma LevelMutexes(g: Graph, pool: seq<Action>, s0: set<LitNode>, f: Flags, link: Linking, k: nat)
    requires Built(g, pool, s0, f, link) && k < |g.aLevels|
    ensures Pairs(g.aMutex[k], ActNodes(g.aLevels[k]), ActTest(f, link, g.sLevels[k], g.sMutex[k]))
    ensures LitMutexes(g.sMutex[k + 1], g.sLevels[k + 1], link, g.aLevels[k], g.aMutex[k])
    ensures g.sMutex[0] == {}
  {
    assert LevelOk(g, pool, f, link, k);
    ActMutexesPairs(f, link, g.sLevels[k], g.sMutex[k], g.aLevels[k]);
  }

  // ------------------------------------------- competing needs (lines 415-416)

  /** As written, an action's parents are its whole S-level, so a single
      mutex pair on that level gives every two actions competing needs. */
  lemma CompetingNeedsAsWritten(f: Flags, s: set<LitNode>, sm: Mutex, a1: Action, a2: Action, p1: LitNode, p2: LitNode)
    requires f.competingNeeds && p1 in s && p2 in s && (S(p1), S(p2)) in sm
    ensures ActMutex(f, AsWritten, s, sm, a1, a2)
  {
  }

  const P := Sym("P")
  const Q := Sym("Q")
  const R := Sym("R")

  /** Two actions whose preconditions are not mutex: one needs `P` and
      makes `Q`, the other needs `Q` and makes `P`. */
  const NeedsP := Action(Sym("A1"), [P], [], [Q], [])
  const NeedsQ := Action(Sym("A2"), [Q], [], [P], [])

  /** A non-serial graph with all three action tests on. */
  const Parallel := Flags(false, true, true, true)

  /** On an S-level holding `P`, `Q`, `R` and `¬R`, where only `R` and `¬R`
      are mutex, the two actions are mutex as written and not as intended. */
  lemma CompetingNeedsWitness()
    ensures var s := {LitNode(P, true), LitNode(Q, true), LitNode(R, true), LitNode(R, false)};
      var sm := {(S(LitNode(R, true)), S(LitNode(R, false))), (S(LitNode(R, false)), S(LitNode(R, true)))};
      && ActMutex(Parallel, AsWritten, s, sm, NeedsP, NeedsQ)
      && !ActMutex(Parallel, Intended, s, sm, NeedsP, NeedsQ)
  {
    var s := {LitNode(P, true), LitNode(Q, true), LitNode(R, true), LitNode(R, false)};
    var sm := {(S(LitNode(R, true)), S(LitNode(R, false))), (S(LitNode(R, false)), S(LitNode(R, true)))};
    assert LitNode(R, true) in s && LitNode(R, false) in s;
    assert Prenodes(NeedsP) == {LitNode(P, true)};
    assert Prenodes(NeedsQ) == {LitNode(Q, true)};
    assert Effnodes(NeedsP) == {LitNode(Q, true)};
    assert Effnodes(NeedsQ) == {LitNode(P, true)};
  }

  /** As intended, competing needs means a precondition of one action is
      mutex with a precondition of the other; for actions of the level
      this implies the as-written test, never the other way round. */
  lemma CompetingNeedsIntended(f: Flags, s: set<LitNode>, sm: Mutex, a1: Action, a2: Action)
    requires Prenodes(a1) <= s && Prenodes(a2) <= s
    ensures CompetingNeeds(f, ActParents(Intended, s, a1), ActParents(Intended, s, a2), sm) <==>
      f.competingNeeds && exists p1, p2 :: p1 in Prenodes(a1) && p2 in Prenodes(a2) && (S(p1), S(p2)) in sm
    ensures ActMutex(f, Intended, s, sm, a1, a2) ==> ActMutex(f, AsWritten, s, sm, a1, a2)
  {
  }

  // ----------------------------------------- inconsistent support (lines 451-452)

  const MakesP := Action(Sym("B1"), [], [], [P], [])
  const MakesQ := Action(Sym("B2"), [], [], [Q], [])
  const MakesBoth := Action(Sym("B3"), [], [], [P, Q], [])

  /** The A-level `MakesP, MakesQ, MakesBoth` with only the first two
      mutex: as written, `P` and `Q` each keep only their first producer as
      a parent and have inconsistent support; as intended, `MakesBoth`
      produces both and they do not. */
  lemma InconsistentSupportWitness()
    ensures var acts := [MakesP, MakesQ, MakesBoth];
      var am := {(A(MakesP), A(MakesQ)), (A(MakesQ), A(MakesP))};
      && LitMutex(AsWritten, acts, am, LitNode(P, true), LitNode(Q, true))
      && !LitMutex(Intended, acts, am, LitNode(P, true), LitNode(Q, true))
  {
    var acts := [MakesP, MakesQ, MakesBoth];
    var am := {(A(MakesP), A(MakesQ)), (A(MakesQ), A(MakesP))};
    assert Effnodes(MakesP) == {LitNode(P, true)};
    assert Effnodes(MakesQ) == {LitNode(Q, true)};
    assert LitNode(P, true) in Effnodes(MakesBoth) && LitNode(Q, true) in Effnodes(MakesBoth);
    assert FirstProducer(acts, LitNode(P, true), 0) == Some(0);
    assert FirstProducer(acts, LitNode(Q, true), 2) == Some(2);
    assert FirstProducer(acts, LitNode(Q, true), 0) == Some(1);
    assert (A(MakesBoth), A(MakesBoth)) !in am;
    InconsistentSupportIntended(acts, am, LitNode(P, true), LitNode(Q, true));
  }

  /** As intended, two literals produced by one action that is not mutex
      with itself never have inconsistent support; and the intended test
      implies the as-written one, since the first producer is a producer. */
  lemma InconsistentSupportIntended(acts: seq<Action>, am: Mutex, l1: LitNode, l2: LitNode)
    ensures (exists a :: a in acts && l1 in Effnodes(a) && l2 in Effnodes(a) && (A(a), A(a)) !in am) ==>
      !InconsistentSupport(LitParents(Intended, acts, l1), LitParents(Intended, acts, l2), am)
    ensures InconsistentSupport(LitParents(Intended, acts, l1), LitParents(Intended, acts, l2), am) ==>
      InconsistentSupport(LitParents(AsWritten, acts, l1), LitParents(AsWritten, acts, l2), am)
  {
    FirstIsProducer(acts, l1);
    FirstIsProducer(acts, l2);
  }

  /** The as-written parent of a literal is one of its intended parents. */
  lemma FirstIsProducer(acts: seq<Action>, l: LitNode)
    ensures LitParents(AsWritten, acts, l) <= LitParents(Intended, acts, l)
    ensures LitParents(Intended, acts, l) != {} ==> |LitParents(AsWritten, acts, l)| == 1
  {
    if LitParents(Intended, acts, l) != {} {
      var a :| a in LitParents(Intended, acts, l);
      var i :| 0 <= i < |acts| && acts[i] == a;
      assert l in Effnodes(acts[i]);
    }
  }
}
