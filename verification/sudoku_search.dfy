/**
 * The outer loop of the Sudoku solver (`Sudoku/solution.py`): the
 * `reduce_puzzle` fixpoint of the three strategies, the depth-first
 * `search` that branches on the unsolved box with the fewest candidates,
 * and `solve`, which adds the two diagonal units before searching.
 *
 * `search` is proved sound (a returned board is filled and no two peers
 * share a digit) and complete (it returns a board whenever the input
 * allows a solution).
 */
module SudokuSearch {
  import opened Wrappers
  import opened Collections
  import opened SudokuBoard
  import opened Sudoku

  // ------------------------------------------------------------ reduce_puzzle

  /** One round of `reduce_puzzle`: `eliminate`, then `only_choice`, then
      `naked_twins`. The snapshots `naked_twins` records are dropped. */
  function Round(v: Values, ul: UnitList): (r: Values)
    requires Board(v) && UnitsOk(ul)
    ensures r.Keys == v.Keys
  {
    NakedTwins(OnlyChoice(Eliminated(v, ul), ul), ul, []).0
  }

  /** Some box has no candidate left. */
  predicate HasEmpty(v: Values)
  {
    exists k :: k in v && v[k] == []
  }

  /** A round only removes candidates. */
  lemma RoundShrinks(v: Values, ul: UnitList)
    requires Board(v) && UnitsOk(ul)
    ensures Shrinks(v, Round(v, ul))
  {
    var e := Eliminated(v, ul);
    var o := OnlyChoice(e, ul);
    EliminatedShrinks(v, ul);
    OnlyChoiceNarrows(e, ul);
    NarrowsShrinks(e, o);
    NakedTwinsMeaning(o, ul, []);
    ShrinksTrans(v, e, o);
    ShrinksTrans(v, o, Round(v, ul));
  }

  /** A round that empties no box and changes the count of solved boxes
      solves more of them, so fewer remain unsolved. */
  lemma RoundGrows(v: Values, ul: UnitList)
    requires Board(v) && UnitsOk(ul)
    requires !HasEmpty(Round(v, ul)) && |Solved(v)| != |Solved(Round(v, ul))|
    ensures |v.Keys - Solved(Round(v, ul))| < |v.Keys - Solved(v)|
  {
    var w := Round(v, ul);
    RoundShrinks(v, ul);
    SolvedKept(v, w);
    ObservedGrows(v.Keys, Solved(v), Solved(w));
  }

  /** `reduce_puzzle`: rounds until the count of solved boxes stops
      changing; `None`, the source's `False`, as soon as a round leaves a box
      without candidates. */
  function Reduce(v: Values, ul: UnitList): Option<Values>
    requires Board(v) && UnitsOk(ul)
    decreases |v.Keys - Solved(v)|
  {
    var w := Round(v, ul);
    if HasEmpty(w) then None
    else if |Solved(v)| == |Solved(w)| then Some(w)
    else
      RoundGrows(v, ul);
      Reduce(w, ul)
  }

  /** What `reduce_puzzle` returns is the input with candidates removed
      and no box empty. */
  lemma {:induction false} ReduceShrinks(v: Values, ul: UnitList)
    requires Board(v) && UnitsOk(ul)
    ensures Reduce(v, ul).Some? ==> Shrinks(v, Reduce(v, ul).value) && !HasEmpty(Reduce(v, ul).value)
    decreases |v.Keys - Solved(v)|
  {
    var w := Round(v, ul);
    RoundShrinks(v, ul);
    if !HasEmpty(w) && |Solved(v)| != |Solved(w)| {
      RoundGrows(v, ul);
      ReduceShrinks(w, ul);
      if Reduce(w, ul).Some? {
        ShrinksTrans(v, w, Reduce(w, ul).value);
      }
    }
  }

  /** `reduce_puzzle` stops at a round that leaves the count of solved
      boxes as it found it. */
  lemma {:induction false} ReduceStalls(v: Values, ul: UnitList)
    requires Board(v) && UnitsOk(ul) && Reduce(v, ul).Some?
    ensures exists u :: (Board(u) && Round(u, ul) == Reduce(v, ul).value &&
      |Solved(u)| == |Solved(Round(u, ul))|)
    decreases |v.Keys - Solved(v)|
  {
    var w := Round(v, ul);
    if |Solved(v)| != |Solved(w)| {
      RoundGrows(v, ul);
      assert Reduce(v, ul) == Reduce(w, ul);
      ReduceStalls(w, ul);
    } else {
      assert Round(v, ul) == Reduce(v, ul).value;
    }
  }

  /** The board's keys are exactly the boxes, as `grid_values` builds it. */
  predicate OnBoxes(v: Values)
  {
    Board(v) && forall k :: k in v ==> k in Boxes
  }

  /** A round keeps every solution the board allows. */
  lemma RoundAllows(v: Values, ul: UnitList, s: Values)
    requires Board(v) && UnitsOk(ul) && Solution(s, ul) && Allows(v, s)
    ensures Allows(Round(v, ul), s)
  {
    var e := Eliminated(v, ul);
    EliminateAllows(v, ul, s);
    OnlyChoiceAllows(e, ul, ul, s);
    NakedTwinsAllows(OnlyChoice(e, ul), ul, s, []);
  }

  /** A board on the boxes that allows a solution has no empty box. */
  lemma AllowsNoEmpty(v: Values, s: Values)
    requires Allows(v, s) && forall k :: k in v ==> k in Boxes
    ensures !HasEmpty(v)
  {
    forall k | k in v ensures v[k] != [] {
      assert s[k][0] in v[k];
    }
  }

  /** `reduce_puzzle` never fails on a board that allows a solution, and
      what it returns still allows it. */
  lemma {:induction false} ReduceAllows(v: Values, ul: UnitList, s: Values)
    requires OnBoxes(v) && UnitsOk(ul) && Solution(s, ul) && Allows(v, s)
    ensures Reduce(v, ul).Some? && Allows(Reduce(v, ul).value, s)
    decreases |v.Keys - Solved(v)|
  {
    var w := Round(v, ul);
    RoundAllows(v, ul, s);
    AllowsNoEmpty(w, s);
    if |Solved(v)| != |Solved(w)| {
      RoundGrows(v, ul);
      ReduceAllows(w, ul, s);
    }
  }

  // ------------------------------------------------------------------- search

  /** The candidates left on the boxes of `bs`, counted. */
  function Size(v: Values, bs: seq<string>): nat
    requires forall b :: b in bs ==> b in v
  {
    if bs == [] then 0 else |v[bs[0]]| + Size(v, bs[1..])
  }

  /** Giving a box no more candidates than it had does not grow the count,
      and giving one of the counted boxes fewer shrinks it. */
  lemma {:induction false} SizeUpdate(v: Values, s: string, x: string, bs: seq<string>)
    requires (forall b :: b in bs ==> b in v) && s in v && |x| <= |v[s]|
    ensures Size(v[s := x], bs) <= Size(v, bs)
    ensures s in bs && |x| < |v[s]| ==> Size(v[s := x], bs) < Size(v, bs)
  {
    if bs != [] {
      SizeUpdate(v, s, x, bs[1..]);
    }
  }

  /** Removing candidates does not grow the count. */
  lemma {:induction false} SizeShrinks(v: Values, w: Values, bs: seq<string>)
    requires Shrinks(v, w) && forall b :: b in bs ==> b in v
    ensures Size(w, bs) <= Size(v, bs)
  {
    if bs != [] {
      SizeShrinks(v, w, bs[1..]);
    }
  }

  /** Python's order on strings: by code point, a proper prefix first. */
  predicate StrLess(a: string, b: string)
  {
    if a == [] then b != []
    else if b == [] then false
    else a[0] < b[0] || (a[0] == b[0] && StrLess(a[1..], b[1..]))
  }

  /** The order is strict: irreflexive and asymmetric. */
  lemma {:induction false} StrLessStrict(a: string, b: string)
    ensures !StrLess(a, a)
    ensures StrLess(a, b) ==> !StrLess(b, a)
  {
    if a != [] && b != [] {
      StrLessStrict(a[1..], b[1..]);
      StrLessStrict(a[1..], a[1..]);
    } else if a != [] {
      StrLessStrict(a[1..], a[1..]);
    }
  }

  /** Any two different strings are ordered one way or the other. */
  lemma {:induction false} StrLessTotal(a: string, b: string)
    requires a != b
    ensures StrLess(a, b) || StrLess(b, a)
  {
    if a != [] && b != [] && a[0] == b[0] {
      assert a == [a[0]] + a[1..] && b == [b[0]] + b[1..];
      StrLessTotal(a[1..], b[1..]);
    }
  }

  /** The order is transitive. */
  lemma {:induction false} StrLessTrans(a: string, b: string, c: string)
    requires StrLess(a, b) && StrLess(b, c)
    ensures StrLess(a, c)
  {
    if a != [] && a[0] == b[0] && b[0] == c[0] {
      StrLessTrans(a[1..], b[1..], c[1..]);
    }
  }

  /** Python's order on the pairs `(len(values[s]), s)`. */
  predicate KeyLess(v: Values, a: string, b: string)
    requires a in v && b in v
  {
    |v[a]| < |v[b]| || (|v[a]| == |v[b]| && StrLess(a, b))
  }

  /** `min((len(values[s]), s) for s in boxes if len(values[s]) > 1)`:
      the first of the least boxes among those with more than one
      candidate, or `None` when there are none. */
  function Fewest(v: Values, bs: seq<string>): (r: Option<string>)
    requires forall b :: b in bs ==> b in v
    ensures r.None? <==> forall b :: b in bs ==> |v[b]| <= 1
    ensures r.Some? ==> r.value in bs && |v[r.value]| > 1
  {
    if bs == [] then None
    else
      var rest := Fewest(v, bs[1..]);
      if |v[bs[0]]| <= 1 then rest
      else if rest.Some? && KeyLess(v, rest.value, bs[0]) then rest
      else Some(bs[0])
  }

  /** No box with more than one candidate comes before the one chosen. */
  lemma {:induction false} FewestIsLeast(v: Values, bs: seq<string>)
    requires forall b :: b in bs ==> b in v
    ensures Fewest(v, bs).Some? ==>
      forall b :: b in bs && |v[b]| > 1 ==> !KeyLess(v, b, Fewest(v, bs).value)
  {
    if bs != [] {
      var t := bs[1..];
      var h := bs[0];
      FewestIsLeast(v, t);
      StrLessStrict(h, h);
      assert forall b :: b in bs ==> b == h || b in t;
      var rest := Fewest(v, t);
      if |v[h]| > 1 && rest.Some? {
        var m := rest.value;
        var r := Fewest(v, bs).value;
        StrLessStrict(m, h);
        if m != h {
          StrLessTotal(m, h);
        }
        assert !KeyLess(v, h, r);
        forall b | b in t && |v[b]| > 1 ensures !KeyLess(v, b, r) {
          assert !KeyLess(v, b, m);
          if r == h && StrLess(b, h) && StrLess(h, m) {
            StrLessTrans(b, h, m);
          }
        }
      }
    }
  }

  /** `search`: reduce, stop when every box holds one digit, otherwise try
      each candidate of the least box in turn. `None` stands for both the
      source's `False` (reduction failed) and the `None` it falls off the
      end with (no candidate led to a solution). */
  function Search(v: Values, ul: UnitList): Option<Values>
    requires Board(v) && UnitsOk(ul)
    decreases Size(v, Boxes), 1, 0
  {
    match Reduce(v, ul)
    case None => None
    case Some(w) =>
      ReduceShrinks(v, ul);
      SizeShrinks(v, w, Boxes);
      if forall b :: b in Boxes ==> |w[b]| == 1 then Some(w)
      else
        // With no box empty, some box has more than one candidate here.
        match Fewest(w, Boxes)
        case None => None
        case Some(f) => TryEach(w, ul, f, w[f])
  }

  /** `for value in values[s]`: a copy of the board with box `s` set to the
      candidate, searched; the first success is returned. */
  function TryEach(w: Values, ul: UnitList, s: string, cands: string): Option<Values>
    requires Board(w) && UnitsOk(ul) && s in Boxes && |w[s]| > 1
    decreases Size(w, Boxes), 0, |cands|
  {
    if cands == [] then None
    else
      SizeUpdate(w, s, [cands[0]], Boxes);
      match Search(w[s := [cands[0]]], ul)
      case Some(r) => Some(r)
      case None => TryEach(w, ul, s, cands[1..])
  }

  // ---------------------------------------------------------- what search finds

  /** Every candidate left is a digit. */
  predicate Digital(v: Values)
  {
    forall k, c :: k in v && c in v[k] ==> c in Digits
  }

  /** Two sets of solved boxes, one inside the other and equally large,
      are the same set. */
  lemma SolvedSame(a: set<string>, b: set<string>)
    requires a <= b && |a| == |b|
    ensures a == b
  {
    if a != b {
      var x :| x in b && x !in a;
      SubsetCard(a, b - {x});
    }
  }

  /** When a round solves every box and the count of solved boxes did not
      change, no two peers share a digit: the round found every box solved
      already, and `eliminate` would have struck a digit a peer holds. */
  lemma StalledDiffer(u: Values, ul: UnitList)
    requires OnBoxes(u) && UnitsOk(ul)
    requires |Solved(u)| == |Solved(Round(u, ul))|
    requires forall b :: b in Boxes ==> |Round(u, ul)[b]| == 1
    ensures PeersDiffer(Round(u, ul), ul)
  {
    var w := Round(u, ul);
    var e := Eliminated(u, ul);
    var o := OnlyChoice(e, ul);
    OnlyChoiceNarrows(e, ul);
    NarrowsShrinks(e, o);
    NakedTwinsMeaning(o, ul, []);
    ShrinksTrans(e, o, w);
    RoundShrinks(u, ul);
    SolvedKept(u, w);
    SolvedSame(Solved(u), Solved(w));
    forall a, b | a in w && b in w && b in Peers(ul, a) ensures w[a] != w[b] {
      if w[a] == w[b] {
        var c := w[a][0];
        assert a in Solved(w) && b in Solved(w);
        assert u[b] == [c];
        PeersMeaning(ul, a, b);
        StruckMembers(u, ul, Boxes, a, c);
        assert c in Struck(u, ul, Boxes, a);
        assert false;
      }
    }
  }

  /** `search` returns the reduced board when every box is solved. */
  lemma SearchDone(v: Values, ul: UnitList)
    requires Board(v) && UnitsOk(ul) && Reduce(v, ul).Some? && Board(Reduce(v, ul).value)
    requires forall b :: b in Boxes ==> |Reduce(v, ul).value[b]| == 1
    ensures Search(v, ul) == Reduce(v, ul)
  {
  }

  /** Otherwise it returns what trying the candidates of the least box
      gives. */
  lemma SearchTries(v: Values, ul: UnitList)
    requires Board(v) && UnitsOk(ul) && Reduce(v, ul).Some? && Board(Reduce(v, ul).value)
    requires !forall b :: b in Boxes ==> |Reduce(v, ul).value[b]| == 1
    ensures var w := Reduce(v, ul).value;
      && Fewest(w, Boxes).Some?
      && Search(v, ul) == TryEach(w, ul, Fewest(w, Boxes).value, w[Fewest(w, Boxes).value])
  {
    ReduceShrinks(v, ul);
  }

  /** Setting a box to one of its candidates removes candidates only. */
  lemma PickShrinks(w: Values, s: string, c: char)
    requires s in w && c in w[s]
    ensures Shrinks(w, w[s := [c]])
    ensures forall k :: k in w ==> k in w[s := [c]]
  {
  }

  /** `for value in values[s]` stops at the first candidate whose search
      succeeds. */
  lemma TryEachUnfold(w: Values, ul: UnitList, s: string, cands: string)
    requires Board(w) && UnitsOk(ul) && s in Boxes && |w[s]| > 1 && cands != []
    ensures var x := w[s := [cands[0]]];
      TryEach(w, ul, s, cands) == if Search(x, ul).Some? then Search(x, ul) else TryEach(w, ul, s, cands[1..])
  {
  }

  /** What `search` returns is the input with candidates removed, holds
      one candidate in every box, and gives no two peers the same one. */
  lemma {:induction false} SearchSound(v: Values, ul: UnitList)
    requires OnBoxes(v) && UnitsOk(ul) && Search(v, ul).Some?
    ensures Shrinks(v, Search(v, ul).value)
    ensures forall b :: b in Boxes ==> |Search(v, ul).value[b]| == 1
    ensures PeersDiffer(Search(v, ul).value, ul)
    decreases Size(v, Boxes), 1, 0
  {
    ReduceShrinks(v, ul);
    var w := Reduce(v, ul).value;
    SizeShrinks(v, w, Boxes);
    if forall b :: b in Boxes ==> |w[b]| == 1 {
      SearchDone(v, ul);
      ReduceStalls(v, ul);
      var u :| Board(u) && Round(u, ul) == w && |Solved(u)| == |Solved(Round(u, ul))|;
      StalledDiffer(u, ul);
    } else {
      SearchTries(v, ul);
      var f := Fewest(w, Boxes).value;
      TryEachSound(w, ul, f, w[f]);
      ShrinksTrans(v, w, Search(v, ul).value);
    }
  }

  lemma {:induction false} TryEachSound(w: Values, ul: UnitList, s: string, cands: string)
    requires OnBoxes(w) && UnitsOk(ul) && s in Boxes && |w[s]| > 1
    requires forall c :: c in cands ==> c in w[s]
    requires TryEach(w, ul, s, cands).Some?
    ensures Shrinks(w, TryEach(w, ul, s, cands).value)
    ensures forall b :: b in Boxes ==> |TryEach(w, ul, s, cands).value[b]| == 1
    ensures PeersDiffer(TryEach(w, ul, s, cands).value, ul)
    decreases Size(w, Boxes), 0, |cands|
  {
    var x := w[s := [cands[0]]];
    SizeUpdate(w, s, [cands[0]], Boxes);
    TryEachUnfold(w, ul, s, cands);
    PickShrinks(w, s, cands[0]);
    if Search(x, ul).Some? {
      SearchSound(x, ul);
      ShrinksTrans(w, x, Search(x, ul).value);
    } else {
      TryEachSound(w, ul, s, cands[1..]);
    }
  }

  /** `search` finds a board whenever the input allows a solution. */
  lemma {:induction false} SearchComplete(v: Values, ul: UnitList, s: Values)
    requires OnBoxes(v) && UnitsOk(ul) && Solution(s, ul) && Allows(v, s)
    ensures Search(v, ul).Some?
    decreases Size(v, Boxes), 1, 0
  {
    ReduceAllows(v, ul, s);
    ReduceShrinks(v, ul);
    var w := Reduce(v, ul).value;
    SizeShrinks(v, w, Boxes);
    if !forall b :: b in Boxes ==> |w[b]| == 1 {
      SearchTries(v, ul);
      var f := Fewest(w, Boxes).value;
      TryEachComplete(w, ul, f, w[f], s);
    }
  }

  lemma {:induction false} TryEachComplete(w: Values, ul: UnitList, f: string, cands: string, s: Values)
    requires OnBoxes(w) && UnitsOk(ul) && f in Boxes && |w[f]| > 1
    requires Solution(s, ul) && Allows(w, s) && s[f][0] in cands
    ensures TryEach(w, ul, f, cands).Some?
    decreases Size(w, Boxes), 0, |cands|
  {
    var x := w[f := [cands[0]]];
    SizeUpdate(w, f, [cands[0]], Boxes);
    TryEachUnfold(w, ul, f, cands);
    if cands[0] == s[f][0] {
      SearchComplete(x, ul, s);
    } else {
      TryEachComplete(w, ul, f, cands[1..], s);
    }
  }

  // --------------------------------------------------------------------- solve

  /** `solve_standard_sudoku`: read the grid and search it under the unit
      list `ul`. Reading fails with the assertion `grid_values` makes. */
  function SolveStandard(grid: string, ul: UnitList): Result<Option<Values>>
    requires UnitsOk(ul)
  {
    match GridValues(grid)
    case Failure(e) => Failure(e)
    case Success(v) => Success(Search(v, ul))
  }

  /** `solve`: append the two diagonals to the unit list, then solve as
      above. The source appends to a global list, so the grown list is
      returned for the next call to start from. */
  function Solve(grid: string, ul: UnitList): (r: (Result<Option<Values>>, UnitList))
    requires UnitsOk(ul)
    ensures UnitsOk(r.1) && |r.1| == |ul| + 2 && r.1[..|ul|] == ul
  {
    DiagonalsOk();
    UnitsOkConcat(ul, Diagonals());
    var ul' := ul + Diagonals();
    (SolveStandard(grid, ul'), ul')
  }

  /** The grid fixes box `Boxes[i]` to the digit it gives there. */
  predicate Agrees(grid: string, s: Values)
  {
    |Kept(grid)| == 81 &&
    forall i :: 0 <= i < 81 && |Kept(grid)[i]| == 1 ==> Boxes[i] in s && s[Boxes[i]] == Kept(grid)[i]
  }

  /** A board read from a grid sits on the boxes and holds digits only. */
  lemma ReadBoard(grid: string)
    requires GridValues(grid).Success?
    ensures OnBoxes(GridValues(grid).value) && Digital(GridValues(grid).value)
  {
    var v := GridValues(grid).value;
    forall k, c | k in v && c in v[k] ensures c in Digits {
      var i := BoxIndex(k);
      var x := Kept(grid)[i];
      assert x in Kept(grid) && v[k] == x;
      if |x| == 1 {
        assert x == [x[0]];
      }
    }
  }

  /** A board with one candidate per box, left from the board a grid
      reads as, is filled and keeps the grid's digits. */
  lemma FoundAgrees(grid: string, r: Values)
    requires GridValues(grid).Success? && Shrinks(GridValues(grid).value, r)
    requires forall b :: b in Boxes ==> |r[b]| == 1
    ensures Filled(r) && Agrees(grid, r)
  {
    var v := GridValues(grid).value;
    ReadBoard(grid);
    forall b | b in Boxes ensures b in r && |r[b]| == 1 && r[b][0] in Digits {
      assert r[b][0] in v[b];
    }
    forall i | 0 <= i < 81 && |Kept(grid)[i]| == 1 ensures Boxes[i] in r && r[Boxes[i]] == Kept(grid)[i] {
      var b := Boxes[i];
      var x := Kept(grid)[i];
      assert b in v && v[b] == x;
      assert r[b][0] in x;
      assert r[b] == [r[b][0]] && x == [x[0]];
    }
  }

  /** What solving returns: failure exactly when the grid does not read as
      81 entries; otherwise, when a board is found, it gives every box one
      digit, no two peers the same, and keeps the grid's digits. */
  lemma SolveStandardSound(grid: string, ul: UnitList)
    requires UnitsOk(ul)
    ensures SolveStandard(grid, ul).Failure? <==> |Kept(grid)| != 81
    ensures SolveStandard(grid, ul).Success? && SolveStandard(grid, ul).value.Some? ==>
      var r := SolveStandard(grid, ul).value.value;
      Filled(r) && PeersDiffer(r, ul) && Agrees(grid, r)
  {
    if GridValues(grid).Success? {
      var v := GridValues(grid).value;
      ReadBoard(grid);
      if Search(v, ul).Some? {
        SearchSound(v, ul);
        FoundAgrees(grid, Search(v, ul).value);
      }
    }
  }

  /** Solving finds a board whenever some solution under `ul` agrees with
      the grid. */
  lemma SolveStandardComplete(grid: string, ul: UnitList, s: Values)
    requires UnitsOk(ul) && Solution(s, ul) && Agrees(grid, s)
    ensures SolveStandard(grid, ul).Success? && SolveStandard(grid, ul).value.Some?
  {
    var v := GridValues(grid).value;
    ReadBoard(grid);
    forall b | b in Boxes ensures s[b][0] in v[b] {
      var i := BoxIndex(b);
      var x := Kept(grid)[i];
      assert x in Kept(grid) && v[b] == x;
      if |x| == 1 {
        assert s[b] == x;
      }
    }
    SearchComplete(v, ul, s);
  }
}
