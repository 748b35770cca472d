/**
 * The earlier draft of the Sudoku solver (`Sudoku/scratch.py`): the same
 * board, `cross` and `grid_values` as the final version, with an
 * `eliminate` that removes a digit by splitting the peer's candidates at it,
 * an `only_choice` built on a digit histogram, and a `reduce_puzzle`
 * without naked twins.
 */
module SudokuScratch {
  import opened Wrappers
  import opened Collections
  import opened Text
  import opened SudokuBoard
  import opened Sudoku
  import opened SudokuSearch

  // ------------------------------------------------------------ split removal

  /** A character the string holds is counted. */
  lemma {:induction false} CountIn(x: string, d: char)
    ensures d in x <==> Count(x, d) > 0
  {
    if x != [] {
      CountIn(x[1..], d);
      assert x == [x[0]] + x[1..];
    }
  }

  /** In a string without repeats, a character it holds occurs once. */
  lemma {:induction false} DistinctCount(x: string, d: char)
    requires Distinct(x) && d in x
    ensures Count(x, d) == 1
  {
    var t := x[1..];
    assert Distinct(t) by {
      forall i, j | 0 <= i < j < |t| ensures t[i] != t[j] {
        assert t[i] == x[i + 1] && t[j] == x[j + 1];
      }
    }
    if x[0] == d {
      CountIn(t, d);
      assert d !in t by {
        forall j | 0 <= j < |t| ensures t[j] != d {
          assert t[j] == x[j + 1];
        }
      }
    } else {
      assert d in t;
      DistinctCount(t, d);
    }
  }

  /** The pieces `split` returns, put back together, start with the first
      piece, the separator and the second piece. */
  lemma JoinFront(p: seq<string>, c: char)
    requires |p| >= 2
    ensures exists rest :: Join(p, c) == p[0] + [c] + p[1] + rest
    ensures |p| == 2 ==> Join(p, c) == p[0] + [c] + p[1]
  {
    if |p| == 2 {
      assert Join(p[1..], c) == p[1];
      assert Join(p, c) == p[0] + [c] + p[1] + [];
    } else {
      var rest := [c] + Join(p[2..], c);
      assert p[1..][1..] == p[2..];
      assert Join(p[1..], c) == p[1] + [c] + Join(p[2..], c);
      assert Join(p, c) == p[0] + [c] + p[1] + rest;
    }
  }

  /** `split_str = s.split(d); split_str[0] + split_str[1]`: the text before
      the first `d` joined to the text between it and the next `d`. The digit
      is gone, nothing is added, and the string is shorter. */
  function SplitRemove(x: string, d: char): (r: string)
    requires d in x
    ensures d !in r && |r| < |x|
    ensures forall c :: c in r ==> c in x
  {
    CountIn(x, d);
    var pieces := SplitOn(x, d);
    JoinFront(pieces, d);
    pieces[0] + pieces[1]
  }

  /** Removing a digit from both halves of a string removes it from the whole. */
  lemma {:induction false} StripConcat(a: string, b: string, ds: set<char>)
    ensures Strip(a + b, ds) == Strip(a, ds) + Strip(b, ds)
  {
    if a != [] {
      var h := if a[0] in ds then [] else [a[0]];
      assert Strip(a + b, ds) == h + Strip(a[1..] + b, ds) by {
        assert (a + b)[1..] == a[1..] + b;
        assert (a + b)[0] == a[0];
      }
      StripConcat(a[1..], b, ds);
      assert Strip(a, ds) == h + Strip(a[1..], ds);
    } else {
      assert a + b == b;
    }
  }

  /** Stripping the one digit between two halves that lack it leaves the
      halves joined. */
  lemma StripAround(a: string, b: string, d: char)
    requires d !in a && d !in b
    ensures Strip(a + [d] + b, {d}) == a + b
  {
    assert Strip(a + [d], {d}) == a by {
      StripConcat(a, [d], {d});
      StripNone(a, {d});
      assert Strip([d], {d}) == [];
    }
    assert Strip(a + [d] + b, {d}) == a + b by {
      StripConcat(a + [d], b, {d});
      StripNone(b, {d});
    }
  }

  /** When the digit occurs once, the split removal strips exactly that
      digit and the string loses one character. */
  lemma SplitRemoveOnce(x: string, d: char)
    requires Count(x, d) == 1
    ensures d in x
    ensures SplitRemove(x, d) == Strip(x, {d}) && |SplitRemove(x, d)| == |x| - 1
  {
    CountIn(x, d);
    var p := SplitOn(x, d);
    JoinFront(p, d);
    StripAround(p[0], p[1], d);
  }

  /** Removing digits keeps a string without repeats free of them. */
  lemma {:induction false} StripDistinct(x: string, ds: set<char>)
    requires Distinct(x)
    ensures Distinct(Strip(x, ds))
  {
    if x != [] {
      var t := x[1..];
      assert Distinct(t) by {
        forall i, j | 0 <= i < j < |t| ensures t[i] != t[j] {
          assert t[i] == x[i + 1] && t[j] == x[j + 1];
        }
      }
      StripDistinct(t, ds);
      if x[0] !in ds {
        var s := Strip(t, ds);
        assert x[0] !in s by {
          forall j | 0 <= j < |t| ensures t[j] != x[0] {
            assert t[j] == x[j + 1];
          }
        }
        var r := [x[0]] + s;
        forall i, j | 0 <= i < j < |r| ensures r[i] != r[j] {
          if i > 0 {
            assert r[i] == s[i - 1] && r[j] == s[j - 1];
          } else {
            assert r[j] == s[j - 1];
          }
        }
      }
    }
  }

  // ---------------------------------------------------------------- eliminate

  /** Where `eliminate` reads the digit of a box that holds one in its
      input: from the copy it is editing, as the source does, or from the
      input itself, as the final version does. */
  datatype Reading = FromCopy | FromInput

  /** The loop over a box's peers: each peer whose candidates in the copy
      hold `d` has it split out. Each peer is edited once and only its own
      entry is read, so the order of the peer set does not matter. */
  function SplitPeers(nd: Values, ps: set<string>, d: char): (r: Values)
    ensures Shrinks(nd, r)
  {
    map k | k in nd :: if k in ps && d in nd[k] then SplitRemove(nd[k], d) else nd[k]
  }

  /** The loop over `boxes` from position `i`, with the copy `nd`. For a box
      holding one digit in the input, the digit is read per `how`; the copy
      never holds more than the input, so what is read has at most one
      character and `elim_val in s` tests for that character. An empty read
      makes `"" in s` hold for the first peer, whose `s.split("")` raises
      ValueError. */
  function EliminateFrom(v: Values, ul: UnitList, how: Reading, nd: Values, i: nat): (r: Result<Values>)
    requires Board(v) && i <= |Boxes| && Shrinks(v, nd)
    decreases |Boxes| - i
  {
    if i == |Boxes| then Success(nd)
    else
      var b := Boxes[i];
      if |v[b]| != 1 then EliminateFrom(v, ul, how, nd, i + 1)
      else
        var e := if how == FromCopy then nd[b] else v[b];
        if e == [] then
          if Peers(ul, b) == {} then EliminateFrom(v, ul, how, nd, i + 1) else Failure(ValueError)
        else
          var nd' := SplitPeers(nd, Peers(ul, b), e[0]);
          ShrinksTrans(v, nd, nd');
          EliminateFrom(v, ul, how, nd', i + 1)
  }

  /** `eliminate` as written: the digit is read from the copy. */
  function ScratchEliminate(v: Values, ul: UnitList): Result<Values>
    requires Board(v)
  {
    EliminateFrom(v, ul, FromCopy, v, 0)
  }

  /** `eliminate` reading the digit from its input. */
  function FixedEliminate(v: Values, ul: UnitList): Result<Values>
    requires Board(v)
  {
    EliminateFrom(v, ul, FromInput, v, 0)
  }

  /** No box lists a candidate twice, as every board `grid_values` reads. */
  predicate NoRepeats(v: Values)
  {
    forall k :: k in v ==> Distinct(v[k])
  }

  /** Box `Boxes[j]` holds one digit that a peer before it also holds alone. */
  predicate Clash(v: Values, ul: UnitList, j: nat)
    requires j < |Boxes|
  {
    exists q :: q in Boxes[..j] && q in v && Boxes[j] in v && |v[Boxes[j]]| == 1 &&
      v[q] == v[Boxes[j]] && Boxes[j] in Peers(ul, q)
  }

  /** Two peers hold the same single digit. */
  predicate Clashes(v: Values, ul: UnitList)
  {
    exists a, b :: a in v && b in v && b in Peers(ul, a) && |v[a]| == 1 && v[a] == v[b]
  }

  /** One box holding a single digit `d`: splitting `d` out of its peers in
      a copy whose boxes hold no repeats strips it, as the final
      `eliminate` does. */
  lemma SplitStep(v: Values, ul: UnitList, i: nat, nd: Values, d: char)
    requires Board(v) && NoRepeats(v) && i < |Boxes| && StruckSoFar(v, ul, i, nd)
    requires |v[Boxes[i]]| == 1 && d == v[Boxes[i]][0]
    ensures StruckSoFar(v, ul, i + 1, SplitPeers(nd, Peers(ul, Boxes[i]), d))
  {
    var ps := Peers(ul, Boxes[i]);
    var nd' := SplitPeers(nd, ps, d);
    forall k | k in nd' ensures nd'[k] == if k in ps then Strip(nd[k], {d}) else nd[k] {
      if k in ps {
        if d in nd[k] {
          StripDistinct(v[k], Struck(v, ul, Boxes[..i], k));
          DistinctCount(nd[k], d);
          SplitRemoveOnce(nd[k], d);
        } else {
          StripNone(nd[k], {d});
        }
      }
    }
    EliminateStep(v, ul, i, nd, nd');
  }

  /** Some box at position `i` or later clashes with an earlier peer. */
  predicate ClashFrom(v: Values, ul: UnitList, i: nat)
  {
    exists j :: i <= j < |Boxes| && Clash(v, ul, j)
  }

  lemma ClashFromNext(v: Values, ul: UnitList, i: nat)
    ensures i == |Boxes| ==> !ClashFrom(v, ul, i)
    ensures i < |Boxes| ==> (ClashFrom(v, ul, i) <==> Clash(v, ul, i) || ClashFrom(v, ul, i + 1))
  {
  }

  /** The pass past a box that does not hold one digit. */
  lemma FromSkip(v: Values, ul: UnitList, how: Reading, nd: Values, i: nat)
    requires Board(v) && i < |Boxes| && Shrinks(v, nd) && |v[Boxes[i]]| != 1
    ensures EliminateFrom(v, ul, how, nd, i) == EliminateFrom(v, ul, how, nd, i + 1)
  {
  }

  /** The pass at a box whose digit reads as empty and that has a peer. */
  lemma FromFail(v: Values, ul: UnitList, how: Reading, nd: Values, i: nat)
    requires Board(v) && i < |Boxes| && Shrinks(v, nd) && |v[Boxes[i]]| == 1
    requires how == FromCopy && nd[Boxes[i]] == [] && Peers(ul, Boxes[i]) != {}
    ensures EliminateFrom(v, ul, how, nd, i) == Failure(ValueError)
  {
  }

  /** The pass at a box whose digit reads as `d`. */
  lemma FromSplit(v: Values, ul: UnitList, how: Reading, nd: Values, i: nat, d: char)
    requires Board(v) && i < |Boxes| && Shrinks(v, nd) && v[Boxes[i]] == [d]
    requires how == FromCopy ==> nd[Boxes[i]] == [d]
    ensures Shrinks(v, SplitPeers(nd, Peers(ul, Boxes[i]), d))
    ensures EliminateFrom(v, ul, how, nd, i) ==
      EliminateFrom(v, ul, how, SplitPeers(nd, Peers(ul, Boxes[i]), d), i + 1)
  {
    ShrinksTrans(v, nd, SplitPeers(nd, Peers(ul, Boxes[i]), d));
  }

  /** What the pass from position `i` should end with: ValueError exactly
      when reading from the copy and some box from `i` on clashes, and
      otherwise the final `eliminate`'s result. */
  predicate Outcome(v: Values, ul: UnitList, how: Reading, i: nat, r: Result<Values>)
  {
    && (r.Failure? <==> how == FromCopy && ClashFrom(v, ul, i))
    && (r.Failure? ==> r.error == ValueError)
    && (r.Success? ==> r.value == Eliminated(v, ul))
  }

  /** Reading an emptied digit from the copy: the box clashes, and the pass
      raises ValueError at once. */
  lemma ClashCase(v: Values, ul: UnitList, nd: Values, i: nat)
    requires Board(v) && UnitsOk(ul) && i < |Boxes| && StruckSoFar(v, ul, i, nd)
    requires |v[Boxes[i]]| == 1 && v[Boxes[i]][0] in Struck(v, ul, Boxes[..i], Boxes[i])
    ensures Outcome(v, ul, FromCopy, i, EliminateFrom(v, ul, FromCopy, nd, i))
  {
    var b := Boxes[i];
    var d := v[b][0];
    assert v[b] == [d];
    StruckMembers(v, ul, Boxes[..i], b, d);
    var q :| q in Boxes[..i] && q in v && v[q] == [d] && b in Peers(ul, q);
    assert Clash(v, ul, i);
    PeersMeaning(ul, q, b);
    assert nd[b] == [];
    FromFail(v, ul, FromCopy, nd, i);
    ClashFromNext(v, ul, i);
  }

  /** Otherwise the digit read is the box's own, the box does not clash,
      and the pass goes on from a copy dealt with up to `i + 1`. */
  lemma SplitCase(v: Values, ul: UnitList, how: Reading, nd: Values, i: nat)
    requires Board(v) && NoRepeats(v) && i < |Boxes| && StruckSoFar(v, ul, i, nd)
    requires |v[Boxes[i]]| == 1
    requires how == FromCopy ==> v[Boxes[i]][0] !in Struck(v, ul, Boxes[..i], Boxes[i])
    ensures var nd' := SplitPeers(nd, Peers(ul, Boxes[i]), v[Boxes[i]][0]);
      && StruckSoFar(v, ul, i + 1, nd')
      && EliminateFrom(v, ul, how, nd, i) == EliminateFrom(v, ul, how, nd', i + 1)
    ensures how == FromCopy ==> !Clash(v, ul, i)
  {
    var b := Boxes[i];
    var d := v[b][0];
    assert v[b] == [d];
    if how == FromCopy {
      var struck := Struck(v, ul, Boxes[..i], b);
      StruckMembers(v, ul, Boxes[..i], b, d);
      StripNone(v[b], struck);
      assert nd[b] == [d];
    }
    SplitStep(v, ul, i, nd, d);
    FromSplit(v, ul, how, nd, i, d);
  }

  /** When box `i` does not clash, the pass from `i` should end as the
      pass from `i + 1` does. */
  lemma OutcomeNext(v: Values, ul: UnitList, how: Reading, i: nat, r: Result<Values>)
    requires i < |Boxes| && Outcome(v, ul, how, i + 1, r)
    requires how == FromCopy && Boxes[i] in v && |v[Boxes[i]]| == 1 ==> !Clash(v, ul, i)
    ensures Outcome(v, ul, how, i, r)
  {
    ClashFromNext(v, ul, i);
  }

  /** From a copy in which the boxes before `i` have been dealt with as the
      final `eliminate` does, reading from the input ends with that
      `eliminate`'s result; reading from the copy does too, unless a later
      box clashes with an earlier peer, and then it raises ValueError. */
  lemma {:induction false} EliminateFromMeaning(v: Values, ul: UnitList, how: Reading, nd: Values, i: nat)
    requires Board(v) && UnitsOk(ul) && NoRepeats(v) && i <= |Boxes| && StruckSoFar(v, ul, i, nd)
    ensures Outcome(v, ul, how, i, EliminateFrom(v, ul, how, nd, i))
    decreases |Boxes| - i
  {
    if i == |Boxes| {
      ClashFromNext(v, ul, i);
      EliminateDone(v, ul, nd);
    } else {
      var b := Boxes[i];
      if |v[b]| != 1 {
        FromSkip(v, ul, how, nd, i);
        EliminateStep(v, ul, i, nd, nd);
        EliminateFromMeaning(v, ul, how, nd, i + 1);
        OutcomeNext(v, ul, how, i, EliminateFrom(v, ul, how, nd, i + 1));
      } else if how == FromCopy && v[b][0] in Struck(v, ul, Boxes[..i], b) {
        ClashCase(v, ul, nd, i);
      } else {
        var nd' := SplitPeers(nd, Peers(ul, b), v[b][0]);
        SplitCase(v, ul, how, nd, i);
        EliminateFromMeaning(v, ul, how, nd', i + 1);
        OutcomeNext(v, ul, how, i, EliminateFrom(v, ul, how, nd', i + 1));
      }
    }
  }

  /** Two peers clash exactly when, of the two, the later box in the list
      of boxes clashes with the earlier. */
  lemma ClashesAt(v: Values, ul: UnitList)
    requires UnitsOk(ul)
    ensures Clashes(v, ul) <==> ClashFrom(v, ul, 0)
  {
    if Clashes(v, ul) {
      var a, b :| a in v && b in v && b in Peers(ul, a) && |v[a]| == 1 && v[a] == v[b];
      PeersMeaning(ul, a, b);
      PeersAreBoxes(ul, a);
      PeersAreBoxes(ul, b);
      var ia := BoxIndex(a);
      var ib := BoxIndex(b);
      if ia < ib {
        assert a == Boxes[..ib][ia];
        assert Clash(v, ul, ib);
      } else {
        assert b == Boxes[..ia][ib];
        assert Clash(v, ul, ia);
      }
    }
    if ClashFrom(v, ul, 0) {
      var j :| 0 <= j < |Boxes| && Clash(v, ul, j);
      var q :| q in Boxes[..j] && q in v && Boxes[j] in v && |v[Boxes[j]]| == 1 &&
        v[q] == v[Boxes[j]] && Boxes[j] in Peers(ul, q);
      assert Boxes[j] in Peers(ul, q) && |v[q]| == 1 && v[q] == v[Boxes[j]];
    }
  }

  /** `eliminate` as written raises ValueError exactly when two peers hold
      the same single digit, and otherwise returns what the final version's
      `eliminate` does. */
  lemma ScratchEliminateMeaning(v: Values, ul: UnitList)
    requires Board(v) && UnitsOk(ul) && NoRepeats(v)
    ensures ScratchEliminate(v, ul).Failure? <==> Clashes(v, ul)
    ensures ScratchEliminate(v, ul).Failure? ==> ScratchEliminate(v, ul).error == ValueError
    ensures ScratchEliminate(v, ul).Success? ==> ScratchEliminate(v, ul).value == Eliminated(v, ul)
  {
    EliminateStart(v, ul);
    EliminateFromMeaning(v, ul, FromCopy, v, 0);
    ClashesAt(v, ul);
  }

  /** Read from its input, the digit never goes missing, and the split
      removal computes the final version's `eliminate`. */
  lemma FixedEliminateMeaning(v: Values, ul: UnitList)
    requires Board(v) && UnitsOk(ul) && NoRepeats(v)
    ensures FixedEliminate(v, ul) == Success(Eliminated(v, ul))
  {
    EliminateStart(v, ul);
    EliminateFromMeaning(v, ul, FromInput, v, 0);
  }

  // --------------------------------------------------- a grid `eliminate` trips on

  /** The grid `11` followed by 79 dots: `A1` and `A2` are both given as 1. */
  function ClashGrid(): string
  {
    "11" + seq(79, _ => '.')
  }

  /** The digits are nine different characters. */
  lemma DigitsDistinct()
    ensures Distinct(Digits) && Digits[0] == '1'
  {
  }

  /** A grid giving 1 in its first two places and nothing else reads as a
      board of boxes without repeats whose first two boxes hold 1. */
  lemma TwoOnesRead(grid: string)
    requires |grid| == 81 && grid[0] == '1' && grid[1] == '1'
    requires forall i :: 2 <= i < 81 ==> grid[i] == '.'
    ensures GridValues(grid).Success?
    ensures OnBoxes(GridValues(grid).value) && NoRepeats(GridValues(grid).value)
    ensures GridValues(grid).value[Boxes[0]] == "1" && GridValues(grid).value[Boxes[1]] == "1"
  {
    DigitsDistinct();
    forall i | 0 <= i < |grid| ensures grid[i] == '.' || grid[i] in Digits {
      if i < 2 {
        assert grid[i] == Digits[0];
      }
    }
    GridValuesWellFormed(grid);
    var v := GridValues(grid).value;
    BoxesFacts();
    forall k | k in v ensures Distinct(v[k]) {
      var i := BoxIndex(k);
    }
  }

  /** `A1` and `A2` share row A. */
  lemma ClashGridPeers()
    ensures Boxes[1] in Peers(StandardUnits(), Boxes[0])
  {
    CrossAt(Rows, Cols, 0, 0);
    CrossAt(Rows, Cols, 0, 1);
    RunAt(FirstRow, 0);
    var u := RowUnits()[0];
    assert RowIndex(Boxes[0]) == 0 && RowIndex(Boxes[1]) == 0;
    assert Boxes[0] in u && Boxes[1] in u;
    assert u in StandardUnits() by {
      assert StandardUnits()[0] == u;
    }
    PeersMeaning(StandardUnits(), Boxes[0], Boxes[1]);
  }

  /** On this grid `eliminate` as written raises ValueError, while reading
      the digit from its input it succeeds. */
  lemma ScratchEliminateCrashes()
    ensures GridValues(ClashGrid()).Success? && Board(GridValues(ClashGrid()).value)
    ensures ScratchEliminate(GridValues(ClashGrid()).value, StandardUnits()) == Failure(ValueError)
    ensures FixedEliminate(GridValues(ClashGrid()).value, StandardUnits()).Success?
  {
    var grid := ClashGrid();
    assert |grid| == 81 && grid[0] == '1' && grid[1] == '1';
    assert forall i :: 2 <= i < 81 ==> grid[i] == '.';
    TwoOnesRead(grid);
    ClashGridPeers();
    StandardUnitsOk();
    var v := GridValues(ClashGrid()).value;
    var ul := StandardUnits();
    assert Clashes(v, ul) by {
      var a, b := Boxes[0], Boxes[1];
      assert a in v && b in v && b in Peers(ul, a) && |v[a]| == 1 && v[a] == v[b];
    }
    ScratchEliminateMeaning(v, ul);
    FixedEliminateMeaning(v, ul);
  }

  // --------------------------------------------------------------- only_choice

  /** `hist[d]` once the histogram loop has run over a unit: how often `d`
      occurs among the candidates of the unit's boxes. */
  function Tally(v: Values, unit: seq<string>, d: char): nat
    requires forall b :: b in unit ==> b in v
  {
    if unit == [] then 0 else Count(v[unit[0]], d) + Tally(v, unit[1..], d)
  }

  /** A box of the unit holding `d` is counted. */
  lemma {:induction false} TallyHolds(v: Values, unit: seq<string>, d: char, b: string)
    requires forall b :: b in unit ==> b in v
    requires b in unit && d in v[b]
    ensures Tally(v, unit, d) >= Count(v[b], d) >= 1
  {
    CountIn(v[b], d);
    if unit[0] != b {
      TallyHolds(v, unit[1..], d, b);
    }
  }

  /** Two different boxes of the unit holding `d` are both counted. */
  lemma {:induction false} TallyTwice(v: Values, unit: seq<string>, d: char, a: string, b: string)
    requires forall b :: b in unit ==> b in v
    requires a in unit && b in unit && a != b && d in v[a] && d in v[b]
    ensures Tally(v, unit, d) >= 2
  {
    if unit[0] == a {
      CountIn(v[a], d);
      TallyHolds(v, unit[1..], d, b);
    } else if unit[0] == b {
      CountIn(v[b], d);
      TallyHolds(v, unit[1..], d, a);
    } else {
      TallyTwice(v, unit[1..], d, a, b);
    }
  }

  /** A digit the histogram counts once is held by one box of the unit. */
  lemma TallyOnce(v: Values, unit: seq<string>, d: char, a: string, b: string)
    requires forall b :: b in unit ==> b in v
    requires Tally(v, unit, d) == 1 && a in unit && b in unit && d in v[a] && d in v[b]
    ensures a == b
  {
    if a != b {
      TallyTwice(v, unit, d, a, b);
    }
  }

  /** Without repeated candidates, the histogram counts the places the final
      version's `only_choice` lists for the digit. */
  lemma {:induction false} TallyPlaces(v: Values, unit: seq<string>, d: char)
    requires forall b :: b in unit ==> b in v
    requires forall b :: b in unit ==> Distinct(v[b])
    ensures Tally(v, unit, d) == |Places(v, unit, d)|
  {
    if unit != [] {
      TallyPlaces(v, unit[1..], d);
      CountIn(v[unit[0]], d);
      if d in v[unit[0]] {
        DistinctCount(v[unit[0]], d);
      }
    }
  }

  /** Every candidate of the unit's boxes is a digit, so `hist[c] += 1`
      finds its key. */
  predicate DigitsOnly(v: Values, unit: seq<string>)
    requires forall b :: b in unit ==> b in v
  {
    forall b, c :: b in unit && c in v[b] ==> c in Digits
  }

  /** Each character comes after the one before it. */
  predicate Increasing(s: string)
  {
    forall i, j :: 0 <= i < j < |s| ==> s[i] < s[j]
  }

  /** `unique_vals`: the digits of `ds` that the histogram counts once. */
  function Uniques(v: Values, unit: seq<string>, ds: string): (r: string)
    requires forall b :: b in unit ==> b in v
    ensures forall d :: d in r <==> d in ds && Tally(v, unit, d) == 1
  {
    if ds == [] then []
    else (if Tally(v, unit, ds[0]) == 1 then [ds[0]] else []) + Uniques(v, unit, ds[1..])
  }

  /** Taken from increasing digits, the unique ones increase too. */
  lemma {:induction false} UniquesIncreasing(v: Values, unit: seq<string>, ds: string)
    requires forall b :: b in unit ==> b in v
    requires Increasing(ds)
    ensures Increasing(Uniques(v, unit, ds))
  {
    if ds != [] {
      var t := ds[1..];
      assert Increasing(t) by {
        forall i, j | 0 <= i < j < |t| ensures t[i] < t[j] {
          assert t[i] == ds[i + 1] && t[j] == ds[j + 1];
        }
      }
      UniquesIncreasing(v, unit, t);
      var u := Uniques(v, unit, t);
      if Tally(v, unit, ds[0]) == 1 {
        var r := [ds[0]] + u;
        forall j | 0 <= j < |u| ensures ds[0] < u[j] {
          assert u[j] in t;
          var k :| 0 <= k < |t| && t[k] == u[j];
          assert t[k] == ds[k + 1];
        }
        forall i, j | 0 <= i < j < |r| ensures r[i] < r[j] {
          assert r[j] == u[j - 1];
          if i > 0 {
            assert r[i] == u[i - 1];
          }
        }
      }
    }
  }

  /** The digits `1` to `9` increase. */
  lemma DigitsIncreasing()
    ensures Increasing(Digits)
  {
  }

  /** The loop that places one unique digit: each box of the unit in turn
      that still holds `d` is set to `d` alone. */
  function PlaceFrom(v: Values, unit: seq<string>, d: char): (r: Values)
    requires forall b :: b in unit ==> b in v
    ensures r.Keys == v.Keys
  {
    if unit == [] then v
    else
      var b := unit[0];
      PlaceFrom(if d in v[b] then v[b := [d]] else v, unit[1..], d)
  }

  /** Writing `d` keeps `d` in the box, so the loop sets exactly the boxes
      of the unit that held `d` on entry. */
  lemma {:induction false} PlaceMeaning(v: Values, unit: seq<string>, d: char)
    requires forall b :: b in unit ==> b in v
    ensures forall k :: k in v ==>
      PlaceFrom(v, unit, d)[k] == if k in unit && d in v[k] then [d] else v[k]
  {
    if unit != [] {
      var b := unit[0];
      var v' := if d in v[b] then v[b := [d]] else v;
      PlaceMeaning(v', unit[1..], d);
      forall k | k in v
        ensures PlaceFrom(v, unit, d)[k] == if k in unit && d in v[k] then [d] else v[k]
      {
        assert k in unit <==> k == b || k in unit[1..];
      }
    }
  }

  /** The loop over `unique_vals`. */
  function PlaceAll(v: Values, unit: seq<string>, ds: string): (r: Values)
    requires forall b :: b in unit ==> b in v
    ensures r.Keys == v.Keys
  {
    if ds == [] then v else PlaceAll(PlaceFrom(v, unit, ds[0]), unit, ds[1..])
  }

  /** What placing the increasing digits `ds` leaves in each box: boxes of
      the unit holding some of them take the first alone, the others keep
      their candidates. */
  predicate TakesFirst(v: Values, unit: seq<string>, ds: string, r: Values)
  {
    r.Keys == v.Keys &&
    (forall k :: k in v && k !in unit ==> r[k] == v[k]) &&
    (forall k :: k in v && (forall d :: d in ds ==> d !in v[k]) ==> r[k] == v[k]) &&
    (forall k, d :: k in unit && k in v && d in ds && d in v[k] ==>
      |r[k]| == 1 && r[k][0] in ds && r[k][0] in v[k] && r[k][0] <= d)
  }

  /** The boxes placing `d` first and then the later digits `ds[1..]`
      leave as they were. */
  lemma PlaceAllKeeps(v: Values, v': Values, unit: seq<string>, ds: string, r: Values)
    requires ds != [] && v'.Keys == v.Keys
    requires forall k :: k in v ==> v'[k] == if k in unit && ds[0] in v[k] then [ds[0]] else v[k]
    requires TakesFirst(v', unit, ds[1..], r)
    ensures r.Keys == v.Keys
    ensures forall k :: k in v && k !in unit ==> r[k] == v[k]
    ensures forall k :: k in v && (forall d :: d in ds ==> d !in v[k]) ==> r[k] == v[k]
  {
    forall k | k in v && (forall d :: d in ds ==> d !in v[k]) ensures r[k] == v[k] {
      assert ds[0] in ds;
    }
  }

  /** A box of the unit holding some digit of `ds` ends with the first. */
  lemma PlaceAllPicks(v: Values, v': Values, unit: seq<string>, ds: string, r: Values)
    requires ds != [] && v'.Keys == v.Keys
    requires forall d :: d in ds[1..] ==> ds[0] < d
    requires forall k :: k in v ==> v'[k] == if k in unit && ds[0] in v[k] then [ds[0]] else v[k]
    requires TakesFirst(v', unit, ds[1..], r)
    ensures forall k, d :: k in unit && k in v && d in ds && d in v[k] ==>
      |r[k]| == 1 && r[k][0] in ds && r[k][0] in v[k] && r[k][0] <= d
  {
    var t := ds[1..];
    forall k, d | k in unit && k in v && d in ds && d in v[k]
      ensures |r[k]| == 1 && r[k][0] in ds && r[k][0] in v[k] && r[k][0] <= d
    {
      if ds[0] in v[k] {
        assert v'[k] == [ds[0]];
        assert forall e :: e in t ==> e !in v'[k];
        assert r[k] == [ds[0]];
        assert d == ds[0] || d in t;
      } else {
        assert v'[k] == v[k] && d in t;
        assert forall e :: e in t ==> e in ds;
      }
    }
  }

  lemma {:induction false} PlaceAllMeaning(v: Values, unit: seq<string>, ds: string)
    requires forall b :: b in unit ==> b in v
    requires Increasing(ds)
    ensures TakesFirst(v, unit, ds, PlaceAll(v, unit, ds))
  {
    if ds != [] {
      var t := ds[1..];
      assert Increasing(t) by {
        forall i, j | 0 <= i < j < |t| ensures t[i] < t[j] {
          assert t[i] == ds[i + 1] && t[j] == ds[j + 1];
        }
      }
      assert forall d :: d in t ==> ds[0] < d by {
        forall d | d in t ensures ds[0] < d {
          var k :| 0 <= k < |t| && t[k] == d;
          assert t[k] == ds[k + 1];
        }
      }
      var v' := PlaceFrom(v, unit, ds[0]);
      PlaceMeaning(v, unit, ds[0]);
      PlaceAllMeaning(v', unit, t);
      var r := PlaceAll(v', unit, t);
      PlaceAllKeeps(v, v', unit, ds, r);
      PlaceAllPicks(v, v', unit, ds, r);
    }
  }

  /** One unit of `only_choice`: the histogram, which raises KeyError on a
      candidate that is not a digit, then the unique digits placed in order. */
  function UnitChoice(v: Values, unit: seq<string>): (r: Result<Values>)
    requires forall b :: b in unit ==> b in v
    ensures r.Failure? ==> r.error == KeyError
    ensures r.Success? ==> r.value.Keys == v.Keys
  {
    if !DigitsOnly(v, unit) then Failure(KeyError)
    else Success(PlaceAll(v, unit, Uniques(v, unit, Digits)))
  }

  /** Each box of the unit holding a digit that the histogram counts once
      ends with the smallest such digit alone; every other box keeps its
      candidates. */
  predicate UniqueTaken(v: Values, unit: seq<string>, r: Values)
    requires forall b :: b in unit ==> b in v
  {
    r.Keys == v.Keys &&
    (forall k :: k in v && k !in unit ==> r[k] == v[k]) &&
    (forall k :: k in v && (forall d :: d in v[k] ==> Tally(v, unit, d) != 1) ==> r[k] == v[k]) &&
    (forall k, d :: k in unit && d in v[k] && Tally(v, unit, d) == 1 ==>
      |r[k]| == 1 && r[k][0] in v[k] && Tally(v, unit, r[k][0]) == 1 && r[k][0] <= d)
  }

  /** With only digits in the unit, the unit step succeeds and places the
      unique digits as described. */
  lemma UnitChoiceMeaning(v: Values, unit: seq<string>)
    requires forall b :: b in unit ==> b in v
    requires DigitsOnly(v, unit)
    ensures UnitChoice(v, unit).Success?
    ensures UniqueTaken(v, unit, UnitChoice(v, unit).value)
  {
    var us := Uniques(v, unit, Digits);
    DigitsIncreasing();
    UniquesIncreasing(v, unit, Digits);
    PlaceAllMeaning(v, unit, us);
  }

  /** A unit step only narrows the board. */
  lemma UnitChoiceNarrows(v: Values, unit: seq<string>)
    requires forall b :: b in unit ==> b in v
    requires DigitsOnly(v, unit)
    ensures Narrows(v, UnitChoice(v, unit).value)
  {
    UnitChoiceMeaning(v, unit);
    var r := UnitChoice(v, unit).value;
    forall k | k in v && r[k] != v[k] ensures |r[k]| == 1 && r[k][0] in v[k] {
      assert k in unit;
      var d :| d in v[k] && Tally(v, unit, d) == 1;
      assert |r[k]| == 1 && r[k][0] in v[k];
    }
  }

  /** A digit counted once in a unit where an allowed solution has it
      somewhere is in that box, so placing it keeps the solution allowed. */
  lemma UnitChoiceAllows(v: Values, unit: seq<string>, s: Values)
    requires forall b :: b in unit ==> b in v
    requires DigitsOnly(v, unit) && Allows(v, s) && forall b :: b in unit ==> b in Boxes
    requires forall d :: d in Digits ==> exists b :: b in unit && b in s && s[b] == [d]
    ensures Allows(UnitChoice(v, unit).value, s)
  {
    UnitChoiceMeaning(v, unit);
    var r := UnitChoice(v, unit).value;
    forall k | k in Boxes && r[k] != v[k] ensures s[k][0] in r[k] {
      assert k in unit;
      var d :| d in v[k] && Tally(v, unit, d) == 1;
      assert |r[k]| == 1 && r[k][0] in v[k] && Tally(v, unit, r[k][0]) == 1;
      var e := r[k][0];
      assert e in Digits;
      var b :| b in unit && b in s && s[b] == [e];
      assert s[b][0] in v[b];
      TallyOnce(v, unit, e, k, b);
    }
  }

  /** The units of a box are units of the list. */
  lemma UnitsOfOk(ul: UnitList, s: string)
    requires UnitsOk(ul)
    ensures UnitsOk(UnitsOf(ul, s)) && forall u :: u in UnitsOf(ul, s) ==> u in ul
  {
    forall u | u in UnitsOf(ul, s) ensures u in ul {
      UnitsOfMembers(ul, s, u);
    }
  }

  /** `for cur_unit in units[cur_block]`: each unit in turn sees the board
      the one before left; the first KeyError ends `only_choice`. */
  function ChoiceUnits(v: Values, us: UnitList): (r: Result<Values>)
    requires Board(v) && UnitsOk(us)
    ensures r.Success? ==> r.value.Keys == v.Keys
  {
    if us == [] then Success(v)
    else
      match UnitChoice(v, us[0])
      case Failure(e) => Failure(e)
      case Success(w) => ChoiceUnits(w, us[1..])
  }

  /** `for cur_block in units`: the boxes from position `i`, in order, each
      with the units that hold it. */
  function ChoiceBoxes(v: Values, ul: UnitList, i: nat): (r: Result<Values>)
    requires Board(v) && UnitsOk(ul) && i <= |Boxes|
    ensures r.Success? ==> r.value.Keys == v.Keys
    decreases |Boxes| - i
  {
    if i == |Boxes| then Success(v)
    else
      UnitsOfOk(ul, Boxes[i]);
      match ChoiceUnits(v, UnitsOf(ul, Boxes[i]))
      case Failure(e) => Failure(e)
      case Success(w) => ChoiceBoxes(w, ul, i + 1)
  }

  /** `only_choice` as written: every unit is visited once for each of its
      boxes, and digits are placed from a histogram taken before any of
      that unit's placements. */
  function ScratchOnlyChoice(v: Values, ul: UnitList): Result<Values>
    requires Board(v) && UnitsOk(ul)
  {
    ChoiceBoxes(v, ul, 0)
  }

  /** Narrowing keeps every candidate a digit and no candidate repeated. */
  lemma NarrowsKeeps(v: Values, w: Values)
    requires Narrows(v, w)
    ensures Digital(v) ==> Digital(w)
    ensures NoRepeats(v) ==> NoRepeats(w)
  {
    forall k, c | k in w && c in w[k] ensures c in v[k] {
      if w[k] != v[k] {
        assert w[k] == [w[k][0]];
      }
    }
  }

  /** What the units of one box do to the board: only KeyError, only
      narrowing, and no error at all on a board of digits. */
  lemma {:induction false} ChoiceUnitsSound(v: Values, us: UnitList)
    requires Board(v) && UnitsOk(us)
    ensures ChoiceUnits(v, us).Failure? ==> ChoiceUnits(v, us).error == KeyError
    ensures ChoiceUnits(v, us).Success? ==> Narrows(v, ChoiceUnits(v, us).value)
    ensures Digital(v) ==> ChoiceUnits(v, us).Success?
  {
    if us != [] {
      var u := us[0];
      if DigitsOnly(v, u) {
        var w := UnitChoice(v, u).value;
        UnitChoiceNarrows(v, u);
        NarrowsKeeps(v, w);
        ChoiceUnitsSound(w, us[1..]);
        if ChoiceUnits(w, us[1..]).Success? {
          NarrowsTrans(v, w, ChoiceUnits(w, us[1..]).value);
        }
      }
    }
  }

  lemma {:induction false} ChoiceBoxesSound(v: Values, ul: UnitList, i: nat)
    requires Board(v) && UnitsOk(ul) && i <= |Boxes|
    ensures ChoiceBoxes(v, ul, i).Failure? ==> ChoiceBoxes(v, ul, i).error == KeyError
    ensures ChoiceBoxes(v, ul, i).Success? ==> Narrows(v, ChoiceBoxes(v, ul, i).value)
    ensures Digital(v) ==> ChoiceBoxes(v, ul, i).Success?
    decreases |Boxes| - i
  {
    if i < |Boxes| {
      var us := UnitsOf(ul, Boxes[i]);
      UnitsOfOk(ul, Boxes[i]);
      ChoiceUnitsSound(v, us);
      if ChoiceUnits(v, us).Success? {
        var w := ChoiceUnits(v, us).value;
        NarrowsKeeps(v, w);
        ChoiceBoxesSound(w, ul, i + 1);
        if ChoiceBoxes(w, ul, i + 1).Success? {
          NarrowsTrans(v, w, ChoiceBoxes(w, ul, i + 1).value);
        }
      }
    }
  }

  /** `only_choice` as written fails only with KeyError, never on a board
      whose candidates are digits, and otherwise only narrows the board. */
  lemma ScratchOnlyChoiceSound(v: Values, ul: UnitList)
    requires Board(v) && UnitsOk(ul)
    ensures ScratchOnlyChoice(v, ul).Failure? ==> ScratchOnlyChoice(v, ul).error == KeyError
    ensures ScratchOnlyChoice(v, ul).Success? ==> Narrows(v, ScratchOnlyChoice(v, ul).value)
    ensures Digital(v) ==> ScratchOnlyChoice(v, ul).Success?
  {
    ChoiceBoxesSound(v, ul, 0);
  }

  /** The units of one box keep every solution the board allows. */
  lemma {:induction false} ChoiceUnitsAllows(v: Values, ul: UnitList, us: UnitList, s: Values)
    requires Board(v) && UnitsOk(ul) && (forall u :: u in us ==> u in ul)
    requires UnitsHold(s, ul) && Allows(v, s)
    ensures UnitsOk(us)
    ensures ChoiceUnits(v, us).Success? ==> Allows(ChoiceUnits(v, us).value, s)
  {
    if us != [] {
      var u := us[0];
      assert u in ul;
      if DigitsOnly(v, u) {
        UnitChoiceAllows(v, u, s);
        ChoiceUnitsAllows(UnitChoice(v, u).value, ul, us[1..], s);
      }
    }
  }

  lemma {:induction false} ChoiceBoxesAllows(v: Values, ul: UnitList, i: nat, s: Values)
    requires Board(v) && UnitsOk(ul) && i <= |Boxes|
    requires UnitsHold(s, ul) && Allows(v, s)
    ensures ChoiceBoxes(v, ul, i).Success? ==> Allows(ChoiceBoxes(v, ul, i).value, s)
    decreases |Boxes| - i
  {
    if i < |Boxes| {
      var us := UnitsOf(ul, Boxes[i]);
      UnitsOfOk(ul, Boxes[i]);
      ChoiceUnitsAllows(v, ul, us, s);
      if ChoiceUnits(v, us).Success? {
        ChoiceBoxesAllows(ChoiceUnits(v, us).value, ul, i + 1, s);
      }
    }
  }

  /** `only_choice` as written keeps every solution the board allows. */
  lemma ScratchOnlyChoiceAllows(v: Values, ul: UnitList, s: Values)
    requires Board(v) && UnitsOk(ul) && UnitsHold(s, ul) && Allows(v, s)
    ensures ScratchOnlyChoice(v, ul).Success? ==> Allows(ScratchOnlyChoice(v, ul).value, s)
  {
    ChoiceBoxesAllows(v, ul, 0, s);
  }

  // ------------------------------------------------------------- reduce_puzzle

  /** `eliminate` fails only with ValueError, and the copy it returns
      holds, box by box, some of the input's candidates. */
  lemma {:induction false} EliminateFromShrinks(v: Values, ul: UnitList, how: Reading, nd: Values, i: nat)
    requires Board(v) && i <= |Boxes| && Shrinks(v, nd)
    ensures EliminateFrom(v, ul, how, nd, i).Failure? ==> EliminateFrom(v, ul, how, nd, i).error == ValueError
    ensures EliminateFrom(v, ul, how, nd, i).Success? ==> Shrinks(v, EliminateFrom(v, ul, how, nd, i).value)
    decreases |Boxes| - i
  {
    if i < |Boxes| {
      var b := Boxes[i];
      if |v[b]| != 1 {
        EliminateFromShrinks(v, ul, how, nd, i + 1);
      } else {
        var e := if how == FromCopy then nd[b] else v[b];
        if e == [] {
          EliminateFromShrinks(v, ul, how, nd, i + 1);
        } else {
          var nd' := SplitPeers(nd, Peers(ul, b), e[0]);
          ShrinksTrans(v, nd, nd');
          EliminateFromShrinks(v, ul, how, nd', i + 1);
        }
      }
    }
  }

  /** One pass of the `reduce_puzzle` loop: `eliminate`, then `only_choice`. */
  function ScratchRound(v: Values, ul: UnitList): (r: Result<Values>)
    requires Board(v) && UnitsOk(ul)
    ensures r.Success? ==> r.value.Keys == v.Keys
  {
    EliminateFromShrinks(v, ul, FromCopy, v, 0);
    match ScratchEliminate(v, ul)
    case Failure(e) => Failure(e)
    case Success(w) => ScratchOnlyChoice(w, ul)
  }

  /** A pass fails with ValueError or KeyError, or only removes candidates. */
  lemma ScratchRoundSound(v: Values, ul: UnitList)
    requires Board(v) && UnitsOk(ul)
    ensures ScratchRound(v, ul).Failure? ==> ScratchRound(v, ul).error in {ValueError, KeyError}
    ensures ScratchRound(v, ul).Success? ==> Shrinks(v, ScratchRound(v, ul).value)
  {
    EliminateFromShrinks(v, ul, FromCopy, v, 0);
    if ScratchEliminate(v, ul).Success? {
      var w := ScratchEliminate(v, ul).value;
      ScratchOnlyChoiceSound(w, ul);
      if ScratchOnlyChoice(w, ul).Success? {
        NarrowsShrinks(w, ScratchOnlyChoice(w, ul).value);
        ShrinksTrans(v, w, ScratchOnlyChoice(w, ul).value);
      }
    }
  }

  /** A board that allows a solution has no two peers holding the same
      single digit. */
  lemma AllowedNoClash(v: Values, ul: UnitList, s: Values)
    requires UnitsOk(ul) && Solution(s, ul) && Allows(v, s)
    ensures !Clashes(v, ul)
  {
    forall a, b | a in v && b in v && b in Peers(ul, a) && |v[a]| == 1 ensures v[a] != v[b] {
      AllowedPeersDiffer(v, ul, s, a, b);
    }
  }

  /** Two peers of such a board never hold the same single digit. */
  lemma AllowedPeersDiffer(v: Values, ul: UnitList, s: Values, a: string, b: string)
    requires UnitsOk(ul) && Filled(s) && PeersDiffer(s, ul) && Allows(v, s)
    requires a in v && b in v && b in Peers(ul, a) && |v[a]| == 1
    ensures v[a] != v[b]
  {
    PeersMeaning(ul, a, b);
    PeersAreBoxes(ul, a);
    PeersAreBoxes(ul, b);
    assert s[a] != s[b];
    assert s[a] == [s[a][0]] && s[b] == [s[b][0]];
    SinglesDiffer(v[a], v[b], s[a][0], s[b][0]);
  }

  /** A one-candidate string differs from any string holding another
      candidate. */
  lemma SinglesDiffer(x: string, y: string, c: char, e: char)
    requires |x| == 1 && c in x && e in y && c != e
    ensures x != y
  {
    assert x[0] == c;
  }

  /** On a board of digits without repeats that allows a solution, a pass
      raises nothing, keeps the solution allowed, and leaves a board of
      digits without repeats. */
  lemma ScratchRoundAllows(v: Values, ul: UnitList, s: Values)
    requires Board(v) && UnitsOk(ul) && Digital(v) && NoRepeats(v)
    requires Solution(s, ul) && Allows(v, s)
    ensures ScratchRound(v, ul).Success?
    ensures Allows(ScratchRound(v, ul).value, s)
    ensures Digital(ScratchRound(v, ul).value) && NoRepeats(ScratchRound(v, ul).value)
  {
    AllowedNoClash(v, ul, s);
    ScratchEliminateMeaning(v, ul);
    var e := Eliminated(v, ul);
    EliminateAllows(v, ul, s);
    EliminatedShrinks(v, ul);
    forall k | k in e ensures Distinct(e[k]) {
      StripDistinct(v[k], Struck(v, ul, Boxes, k));
    }
    ScratchOnlyChoiceSound(e, ul);
    ScratchOnlyChoiceAllows(e, ul, s);
    NarrowsKeeps(e, ScratchOnlyChoice(e, ul).value);
  }

  /** `reduce_puzzle` as written: passes until the count of solved boxes
      stops changing; `None`, the source's `False`, as soon as a pass leaves
      a box without candidates; an exception from a pass ends it. */
  function ScratchReduce(v: Values, ul: UnitList): (r: Result<Option<Values>>)
    requires Board(v) && UnitsOk(ul)
    decreases |v.Keys - Solved(v)|
  {
    match ScratchRound(v, ul)
    case Failure(e) => Failure(e)
    case Success(w) =>
      if HasEmpty(w) then Success(None)
      else if |Solved(v)| == |Solved(w)| then Success(Some(w))
      else
        ScratchRoundSound(v, ul);
        SolvedKept(v, w);
        ObservedGrows(v.Keys, Solved(v), Solved(w));
        ScratchReduce(w, ul)
  }

  /** `reduce_puzzle` as written fails with ValueError or KeyError, or
      returns the input with candidates removed and no box empty. */
  lemma {:induction false} ScratchReduceSound(v: Values, ul: UnitList)
    requires Board(v) && UnitsOk(ul)
    ensures ScratchReduce(v, ul).Failure? ==> ScratchReduce(v, ul).error in {ValueError, KeyError}
    ensures ScratchReduce(v, ul).Success? && ScratchReduce(v, ul).value.Some? ==>
      Shrinks(v, ScratchReduce(v, ul).value.value) && !HasEmpty(ScratchReduce(v, ul).value.value)
    decreases |v.Keys - Solved(v)|
  {
    ScratchRoundSound(v, ul);
    if ScratchRound(v, ul).Success? {
      var w := ScratchRound(v, ul).value;
      if !HasEmpty(w) && |Solved(v)| != |Solved(w)| {
        SolvedKept(v, w);
        ObservedGrows(v.Keys, Solved(v), Solved(w));
        ScratchReduceSound(w, ul);
        if ScratchReduce(w, ul).Success? && ScratchReduce(w, ul).value.Some? {
          ShrinksTrans(v, w, ScratchReduce(w, ul).value.value);
        }
      }
    }
  }

  /** On a board of the boxes, of digits without repeats, that allows a
      solution, `reduce_puzzle` as written raises nothing, does not give
      up, and keeps the solution allowed. */
  lemma {:induction false} ScratchReduceComplete(v: Values, ul: UnitList, s: Values)
    requires OnBoxes(v) && UnitsOk(ul) && Digital(v) && NoRepeats(v)
    requires Solution(s, ul) && Allows(v, s)
    ensures ScratchReduce(v, ul).Success? && ScratchReduce(v, ul).value.Some?
    ensures Allows(ScratchReduce(v, ul).value.value, s)
    decreases |v.Keys - Solved(v)|
  {
    ScratchRoundAllows(v, ul, s);
    var w := ScratchRound(v, ul).value;
    assert !HasEmpty(w) by {
      forall k | k in w ensures w[k] != [] {
        assert s[k][0] in w[k];
      }
    }
    if |Solved(v)| != |Solved(w)| {
      ScratchRoundSound(v, ul);
      SolvedKept(v, w);
      ObservedGrows(v.Keys, Solved(v), Solved(w));
      ScratchReduceComplete(w, ul, s);
    }
  }
}
