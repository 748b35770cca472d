/**
 * Constraint propagation and search for Sudoku (`Sudoku/solution.py`):
 * `eliminate`, `only_choice`, `naked_twins` with `assign_value`, the
 * `reduce_puzzle` fixpoint and the depth-first `search`.
 *
 * Besides the per-operation contracts, the module proves the two facts the
 * strategies rest on: no strategy removes the digit of a solution the board
 * still allows, so `search` finds a solution whenever one exists; and what
 * `search` returns holds one digit per box with no two peers alike.
 */
module Sudoku {
  import opened Wrappers
  import opened Collections
  import opened SudokuBoard

  /** Every box holds a single digit. */
  predicate Filled(s: Values)
  {
    forall b :: b in Boxes ==> b in s && |s[b]| == 1 && s[b][0] in Digits
  }

  /** No two peers hold the same value. */
  predicate PeersDiffer(s: Values, ul: UnitList)
  {
    forall a, b :: a in s && b in s && b in Peers(ul, a) ==> s[a] != s[b]
  }

  /** Every unit holds every digit somewhere. */
  predicate UnitsHold(s: Values, ul: UnitList)
  {
    forall u, d :: u in ul && d in Digits ==> exists b :: b in u && b in s && s[b] == [d]
  }

  /** A filled board that satisfies the units. */
  predicate Solution(s: Values, ul: UnitList)
  {
    Filled(s) && PeersDiffer(s, ul) && UnitsHold(s, ul)
  }

  /** Board `v` still allows the filled board `s`: each box's digit is
      among its candidates. */
  predicate Allows(v: Values, s: Values)
  {
    forall b :: b in Boxes ==> b in v && b in s && |s[b]| == 1 && s[b][0] in v[b]
  }

  // ----------------------------------------------------------------- eliminate

  /** The digits `eliminate` strikes from box `k` on account of the boxes
      among `bs`: the single candidates, read from the input board, of those
      of them that have `k` as a peer. */
  function Struck(v: Values, ul: UnitList, bs: seq<string>, k: string): set<char>
    decreases |bs|
  {
    if bs == [] then {}
    else
      var q := bs[|bs| - 1];
      Struck(v, ul, bs[..|bs| - 1], k) + (if q in v && |v[q]| == 1 && k in Peers(ul, q) then {v[q][0]} else {})
  }

  /** A digit is struck exactly when one of the boxes holds it alone and has
      `k` as a peer. */
  lemma {:induction false} StruckMembers(v: Values, ul: UnitList, bs: seq<string>, k: string, c: char)
    ensures c in Struck(v, ul, bs, k) <==> exists q :: q in bs && q in v && v[q] == [c] && k in Peers(ul, q)
    decreases |bs|
  {
    if bs != [] {
      var n := |bs| - 1;
      var q := bs[n];
      StruckMembers(v, ul, bs[..n], k, c);
      assert bs == bs[..n] + [q];
      if q in v && |v[q]| == 1 {
        assert v[q] == [v[q][0]];
      }
    }
  }

  /** What `eliminate` returns: each box without the digits of its solved
      peers. */
  function Eliminated(v: Values, ul: UnitList): (r: Values)
    ensures r.Keys == v.Keys
  {
    map k | k in v :: Strip(v[k], Struck(v, ul, Boxes, k))
  }

  /** The copy after the boxes before position `i` have been dealt with. */
  predicate StruckSoFar(v: Values, ul: UnitList, i: nat, r: Values)
    requires i <= |Boxes|
  {
    r.Keys == v.Keys && forall k :: k in r ==> r[k] == Strip(v[k], Struck(v, ul, Boxes[..i], k))
  }

  /** `eliminate`: a copy of the board in which, for each box in turn that
      holds a single digit, every peer whose input candidates hold that digit
      loses it. */
  method Eliminate(v: Values, ul: UnitList) returns (r: Values)
    requires Board(v) && UnitsOk(ul)
    ensures r == Eliminated(v, ul)
  {
    r := v;
    EliminateStart(v, ul);
    var i := 0;
    while i < |Boxes|
      invariant i <= |Boxes| && StruckSoFar(v, ul, i, r)
    {
      var b := Boxes[i];
      var r' := r;
      if |v[b]| == 1 {
        r' := StrikePeers(v, ul, b, r);
      }
      EliminateStep(v, ul, i, r, r');
      r := r';
      i := i + 1;
    }
    EliminateDone(v, ul, r);
  }

  /** Before any box is dealt with, the copy is the input board. */
  lemma EliminateStart(v: Values, ul: UnitList)
    ensures StruckSoFar(v, ul, 0, v)
  {
    forall k | k in v ensures v[k] == Strip(v[k], Struck(v, ul, Boxes[..0], k)) {
      StripNone(v[k], {});
    }
  }

  /** After every box is dealt with, the copy is the result of `eliminate`. */
  lemma EliminateDone(v: Values, ul: UnitList, r: Values)
    requires StruckSoFar(v, ul, |Boxes|, r)
    ensures r == Eliminated(v, ul)
  {
    assert Boxes[..|Boxes|] == Boxes;
  }

  /** Dealing with box `i`: its digit, if it holds one alone, leaves its peers. */
  lemma EliminateStep(v: Values, ul: UnitList, i: nat, r: Values, r': Values)
    requires Board(v) && i < |Boxes| && StruckSoFar(v, ul, i, r) && r'.Keys == v.Keys
    requires forall k :: k in r' ==>
      r'[k] == if |v[Boxes[i]]| == 1 && k in Peers(ul, Boxes[i]) then Strip(r[k], {v[Boxes[i]][0]}) else r[k]
    ensures StruckSoFar(v, ul, i + 1, r')
  {
    var b := Boxes[i];
    assert b in v;
    forall k | k in r' ensures r'[k] == Strip(v[k], Struck(v, ul, Boxes[..i + 1], k)) {
      StruckNext(v, ul, i, k);
      assert r[k] == Strip(v[k], Struck(v, ul, Boxes[..i], k));
      if |v[b]| == 1 && k in Peers(ul, b) {
        StripStrip(v[k], Struck(v, ul, Boxes[..i], k), {v[b][0]});
      } else {
        assert Struck(v, ul, Boxes[..i + 1], k) == Struck(v, ul, Boxes[..i], k);
      }
    }
  }

  /** The inner loop of `eliminate` for a box `b` holding one digit: each
      peer that holds the digit in the input board loses it. */
  method StrikePeers(v: Values, ul: UnitList, b: string, r0: Values) returns (r: Values)
    requires Board(v) && UnitsOk(ul) && b in v && |v[b]| == 1 && r0.Keys == v.Keys
    requires forall k, c :: k in r0 && c in r0[k] ==> c in v[k]
    ensures r.Keys == v.Keys
    ensures forall k :: k in r ==> r[k] == if k in Peers(ul, b) then Strip(r0[k], {v[b][0]}) else r0[k]
  {
    PeersAreBoxes(ul, b);
    r := StrikeAll(v, Peers(ul, b), v[b][0], r0);
  }

  /** Striking `d` from each box of `peers`, one box at a time; a box that
      does not hold `d` in `v` is left as it is. */
  method StrikeAll(v: Values, peers: set<string>, d: char, r0: Values) returns (r: Values)
    requires r0.Keys == v.Keys && (forall k :: k in peers ==> k in v)
    requires forall k, c :: k in r0 && c in r0[k] ==> c in v[k]
    ensures r.Keys == v.Keys && StruckExcept(r0, r, peers, {}, d)
  {
    r := r0;
    var rest := peers;
    while rest != {}
      invariant rest <= peers
      invariant r.Keys == v.Keys
      invariant StruckExcept(r0, r, peers, rest, d)
      decreases |rest|
    {
      var p :| p in rest;
      var x := r0[p];
      if d in v[p] {
        x := Strip(r0[p], {d});
      } else {
        StripNone(r0[p], {d});
      }
      StrikeOne(r0, r, peers, rest, p, d, x);
      r := r[p := x];
      rest := rest - {p};
    }
  }

  /** `r` has `d` struck from the boxes of `peers` outside `rest`, and is
      `r0` elsewhere. */
  predicate StruckExcept(r0: Values, r: Values, peers: set<string>, rest: set<string>, d: char)
    requires r.Keys <= r0.Keys
  {
    forall k :: k in r ==> r[k] == if k in peers && k !in rest then Strip(r0[k], {d}) else r0[k]
  }

  /** One step of the inner loop: striking `d` from peer `p`. */
  lemma StrikeOne(r0: Values, r: Values, peers: set<string>, rest: set<string>, p: string, d: char, x: string)
    requires r.Keys == r0.Keys && p in rest && p in r0 && StruckExcept(r0, r, peers, rest, d)
    requires rest <= peers && x == Strip(r0[p], {d})
    ensures StruckExcept(r0, r[p := x], peers, rest - {p}, d)
  {
  }

  /** Taking one more box into account strikes its digit from its peers. */
  lemma StruckNext(v: Values, ul: UnitList, i: nat, k: string)
    requires i < |Boxes|
    ensures Struck(v, ul, Boxes[..i + 1], k) == Struck(v, ul, Boxes[..i], k) +
      (if Boxes[i] in v && |v[Boxes[i]]| == 1 && k in Peers(ul, Boxes[i]) then {v[Boxes[i]][0]} else {})
  {
    assert Boxes[..i + 1][..i] == Boxes[..i];
  }

  /** A candidate survives `eliminate` exactly when no peer holds it as its
      single candidate; candidates are only ever removed. */
  lemma EliminatedMeaning(v: Values, ul: UnitList, k: string, c: char)
    requires UnitsOk(ul) && k in v
    ensures c in Eliminated(v, ul)[k] <==>
      c in v[k] && !exists q :: q in v && q in Peers(ul, k) && v[q] == [c]
  {
    StruckMembers(v, ul, Boxes, k, c);
    if exists q :: q in v && q in Peers(ul, k) && v[q] == [c] {
      var q :| q in v && q in Peers(ul, k) && v[q] == [c];
      PeersAreBoxes(ul, k);
      PeersMeaning(ul, k, q);
    }
    if exists q :: q in Boxes && q in v && v[q] == [c] && k in Peers(ul, q) {
      var q :| q in Boxes && q in v && v[q] == [c] && k in Peers(ul, q);
      PeersMeaning(ul, k, q);
    }
  }

  /** `eliminate` only removes candidates. */
  lemma EliminatedShrinks(v: Values, ul: UnitList)
    ensures Shrinks(v, Eliminated(v, ul))
  {
  }

  /** `eliminate` never strikes the digit of a solution the board allows. */
  lemma EliminateAllows(v: Values, ul: UnitList, s: Values)
    requires UnitsOk(ul) && Filled(s) && PeersDiffer(s, ul) && Allows(v, s)
    ensures Allows(Eliminated(v, ul), s)
  {
    forall b | b in Boxes ensures s[b][0] in Eliminated(v, ul)[b] {
      EliminateKeeps(v, ul, s, b);
    }
  }

  lemma EliminateKeeps(v: Values, ul: UnitList, s: Values, b: string)
    requires UnitsOk(ul) && Filled(s) && PeersDiffer(s, ul) && Allows(v, s) && b in Boxes
    ensures s[b][0] in Eliminated(v, ul)[b]
  {
    var c := s[b][0];
    EliminatedMeaning(v, ul, b, c);
    PeersAreBoxes(ul, b);
    forall q | q in v && q in Peers(ul, b) ensures v[q] != [c] {
      PeerKeeps(v, ul, s, b, q);
    }
  }

  /** A peer of `b` never holds `b`'s digit of the solution alone. */
  lemma PeerKeeps(v: Values, ul: UnitList, s: Values, b: string, q: string)
    requires Filled(s) && PeersDiffer(s, ul) && Allows(v, s) && b in Boxes && q in Boxes && q in Peers(ul, b)
    ensures v[q] != [s[b][0]]
  {
    assert s[q] == [s[q][0]] && s[b] == [s[b][0]];
    assert s[q][0] in v[q];
  }

  // --------------------------------------------------------------- only_choice

  /** `[box for box in unit if digit in values[box]]` */
  function Places(v: Values, unit: seq<string>, d: char): (r: seq<string>)
    requires forall b :: b in unit ==> b in v
    ensures forall b :: b in r <==> b in unit && d in v[b]
  {
    if unit == [] then []
    else (if d in v[unit[0]] then [unit[0]] else []) + Places(v, unit[1..], d)
  }

  /** One digit of one unit: a digit with a single place is written there. */
  function ChoiceStep(v: Values, unit: seq<string>, d: char): (r: Values)
    requires forall b :: b in unit ==> b in v
    ensures r.Keys == v.Keys
  {
    var places := Places(v, unit, d);
    if |places| == 1 then v[places[0] := [d]] else v
  }

  /** The digits `ds` of one unit, in order. */
  function ChoiceDigits(v: Values, unit: seq<string>, ds: string): (r: Values)
    requires forall b :: b in unit ==> b in v
    ensures r.Keys == v.Keys
    decreases |ds|
  {
    if ds == [] then v
    else ChoiceDigits(ChoiceStep(v, unit, ds[0]), unit, ds[1..])
  }

  /** `only_choice`: every unit in order, every digit in order, each step
      seeing the board the earlier ones left. */
  function OnlyChoice(v: Values, ul: UnitList): (r: Values)
    requires Board(v) && UnitsOk(ul)
    ensures r.Keys == v.Keys
  {
    if ul == [] then v
    else OnlyChoice(ChoiceDigits(v, ul[0], Digits), ul[1..])
  }

  /** Each box of `w` is that of `v`, or one of its candidates alone. */
  predicate Narrows(v: Values, w: Values)
  {
    w.Keys == v.Keys &&
    forall k :: k in v ==> w[k] == v[k] || (|w[k]| == 1 && w[k][0] in v[k])
  }

  lemma NarrowsTrans(u: Values, v: Values, w: Values)
    requires Narrows(u, v) && Narrows(v, w)
    ensures Narrows(u, w)
  {
  }

  /** Narrowing only removes candidates and never empties a box. */
  lemma NarrowsShrinks(v: Values, w: Values)
    requires Narrows(v, w)
    ensures Shrinks(v, w)
    ensures forall k :: k in v && v[k] != [] ==> w[k] != []
    ensures forall k :: k in v && |v[k]| == 1 ==> w[k] == v[k]
  {
    forall k | k in v ensures |w[k]| <= |v[k]| {
      if w[k] != v[k] {
        assert w[k][0] in v[k];
      }
    }
  }

  /** A digit held by exactly one box of a unit without repeats is written
      there; any box that changes takes the digit, which it held; so the
      board only narrows. */
  lemma ChoiceStepMeaning(v: Values, unit: seq<string>, d: char)
    requires forall b :: b in unit ==> b in v
    ensures Narrows(v, ChoiceStep(v, unit, d))
    ensures forall k :: k in v && ChoiceStep(v, unit, d)[k] != v[k] ==>
      (k in unit && d in v[k] && ChoiceStep(v, unit, d)[k] == [d])
    ensures forall b :: b in unit && d in v[b] && Distinct(unit) && Alone(v, unit, d, b) ==>
      ChoiceStep(v, unit, d)[b] == [d]
  {
    var places := Places(v, unit, d);
    if |places| == 1 {
      assert places[0] in places;
    }
    forall b | b in unit && d in v[b] && Distinct(unit) && Alone(v, unit, d, b)
      ensures ChoiceStep(v, unit, d)[b] == [d]
    {
      PlacesAlone(v, unit, d, b);
    }
  }

  /** No box of the unit other than `b` holds `d`. */
  predicate Alone(v: Values, unit: seq<string>, d: char, b: string)
    requires forall b :: b in unit ==> b in v
  {
    forall b' :: b' in unit && d in v[b'] ==> b' == b
  }

  /** The only place of a digit held by one box of a unit without repeats. */
  lemma {:induction false} PlacesAlone(v: Values, unit: seq<string>, d: char, b: string)
    requires forall b :: b in unit ==> b in v
    requires b in unit && d in v[b] && Distinct(unit) && Alone(v, unit, d, b)
    ensures Places(v, unit, d) == [b]
  {
    var t := unit[1..];
    assert Distinct(t) by {
      forall i, j | 0 <= i < j < |t| ensures t[i] != t[j] {
        assert t[i] == unit[i + 1] && t[j] == unit[j + 1];
      }
    }
    if unit[0] == b {
      assert b !in t;
      assert Places(v, t, d) == [] by {
        if Places(v, t, d) != [] {
          assert Places(v, t, d)[0] in Places(v, t, d);
        }
      }
    } else {
      assert b in t;
      PlacesAlone(v, t, d, b);
    }
  }

  /** `only_choice` narrows the board. */
  lemma {:induction false} OnlyChoiceNarrows(v: Values, ul: UnitList)
    requires Board(v) && UnitsOk(ul)
    ensures Narrows(v, OnlyChoice(v, ul))
  {
    if ul != [] {
      var w := ChoiceDigits(v, ul[0], Digits);
      ChoiceDigitsNarrows(v, ul[0], Digits);
      OnlyChoiceNarrows(w, ul[1..]);
      NarrowsTrans(v, w, OnlyChoice(w, ul[1..]));
    }
  }

  lemma {:induction false} ChoiceDigitsNarrows(v: Values, unit: seq<string>, ds: string)
    requires forall b :: b in unit ==> b in v
    ensures Narrows(v, ChoiceDigits(v, unit, ds))
    decreases |ds|
  {
    if ds != [] {
      var w := ChoiceStep(v, unit, ds[0]);
      ChoiceStepMeaning(v, unit, ds[0]);
      ChoiceDigitsNarrows(w, unit, ds[1..]);
      NarrowsTrans(v, w, ChoiceDigits(w, unit, ds[1..]));
    }
  }

  /** A digit's only place in a unit is where an allowed solution has it, so
      writing it there keeps the solution allowed. */
  lemma ChoiceStepAllows(v: Values, unit: seq<string>, d: char, s: Values, b: string)
    requires forall x :: x in unit ==> x in v
    requires Allows(v, s) && b in unit && b in Boxes && s[b] == [d]
    ensures Allows(ChoiceStep(v, unit, d), s)
  {
    var places := Places(v, unit, d);
    assert s[b][0] in v[b];
    if |places| == 1 {
      assert b in places && places[0] in places;
    }
  }

  lemma {:induction false} ChoiceDigitsAllows(v: Values, ul: UnitList, unit: seq<string>, ds: string, s: Values)
    requires UnitsOk(ul) && unit in ul && Board(v) && forall c :: c in ds ==> c in Digits
    requires UnitsHold(s, ul) && Allows(v, s)
    ensures Allows(ChoiceDigits(v, unit, ds), s)
    decreases |ds|
  {
    if ds != [] {
      assert ds[0] in ds && ds[0] in Digits;
      var b :| b in unit && b in s && s[b] == [ds[0]];
      ChoiceStepAllows(v, unit, ds[0], s, b);
      ChoiceDigitsAllows(ChoiceStep(v, unit, ds[0]), ul, unit, ds[1..], s);
    }
  }

  /** `only_choice` keeps every solution the board allows. */
  lemma {:induction false} OnlyChoiceAllows(v: Values, ul: UnitList, rest: UnitList, s: Values)
    requires UnitsOk(ul) && Board(v) && (forall u :: u in rest ==> u in ul)
    requires UnitsHold(s, ul) && Allows(v, s)
    ensures UnitsOk(rest) && Allows(OnlyChoice(v, rest), s)
  {
    if rest != [] {
      ChoiceDigitsAllows(v, ul, rest[0], Digits, s);
      OnlyChoiceAllows(ChoiceDigits(v, rest[0], Digits), ul, rest[1..], s);
    }
  }

  // -------------------------------------------------------------- assign_value

  /** `assign_value(values, box, value)`. The snapshot list `log` stands for
      the module-level `assignments`: a copy of the board is appended when
      the box changes to a single candidate. */
  function AssignValue(v: Values, box: string, value: string, log: seq<Values>): (r: Result<(Values, seq<Values>)>)
    ensures r.Failure? <==> box !in v
    ensures r.Failure? ==> r.error == KeyError
    ensures r.Success? ==> r.value == Assigned(v, box, value, log)
  {
    if box !in v then Failure(KeyError) else Success(Assigned(v, box, value, log))
  }

  /** `assign_value` on a board holding the box: the box takes the value,
      every other box keeps its own, and the snapshot list grows by the new
      board exactly when the box changes to a single candidate. */
  function Assigned(v: Values, box: string, value: string, log: seq<Values>): (r: (Values, seq<Values>))
    requires box in v
    ensures r.0 == v[box := value]
    ensures |log| <= |r.1| <= |log| + 1 && r.1[..|log|] == log
    ensures |r.1| == |log| + 1 <==> v[box] != value && |value| == 1
    ensures |r.1| == |log| + 1 ==> r.1[|log|] == r.0
  {
    if v[box] == value then
      assert v[box := value] == v;
      (v, log)
    else
      var w := v[box := value];
      (w, if |value| == 1 then log + [w] else log)
  }

  /** Assigning the value a box already holds changes nothing and records
      nothing, so a second identical assignment is idle. */
  lemma AssignValueIdempotent(v: Values, box: string, value: string, log: seq<Values>)
    requires box in v
    ensures var (w, log') := AssignValue(v, box, value, log).value;
      AssignValue(w, box, value, log') == Success((w, log'))
  {
  }

  // --------------------------------------------------------------- naked_twins

  /** A naked-twin pair `(cur_box1, cur_box2, digits)`. */
  datatype Twin = Twin(first: string, second: string, digits: string)

  /** `t` is a pair of peers holding the same two candidates. */
  predicate IsTwin(v: Values, ul: UnitList, t: Twin)
  {
    && t.first in Boxes && t.first in v && |v[t.first]| == 2
    && t.second in Peers(ul, t.first) && t.second in v && v[t.second] == v[t.first]
    && t.digits == v[t.first]
  }

  /** `pair_values`: the boxes with exactly two candidates, in box order. */
  function PairBoxes(v: Values, bs: seq<string>): (r: seq<string>)
    requires forall b :: b in bs ==> b in v
    ensures forall b :: b in r <==> b in bs && |v[b]| == 2
  {
    if bs == [] then []
    else (if |v[bs[0]]| == 2 then [bs[0]] else []) + PairBoxes(v, bs[1..])
  }

  /** The twins of `b1`: its peers among `bs` holding the same candidates. */
  function TwinsOf(v: Values, ul: UnitList, b1: string, bs: seq<string>): (r: seq<Twin>)
    requires b1 in v && forall b :: b in bs ==> b in v
    ensures forall t :: t in r <==>
      t.first == b1 && t.second in bs && t.second in Peers(ul, b1) && v[t.second] == v[b1] && t.digits == v[b1]
  {
    if bs == [] then []
    else
      var b2 := bs[0];
      (if b2 in Peers(ul, b1) && v[b2] == v[b1] then [Twin(b1, b2, v[b1])] else []) + TwinsOf(v, ul, b1, bs[1..])
  }

  /** The `naked_twins` list: for each pair box, each of its twins. Peers
      are taken in box order. */
  function Twins(v: Values, ul: UnitList, pairs: seq<string>): (r: seq<Twin>)
    requires Board(v) && forall b :: b in pairs ==> b in v
    ensures forall t :: t in r <==>
      t.first in pairs && t.second in Boxes && t.second in Peers(ul, t.first) && v[t.second] == v[t.first] && t.digits == v[t.first]
  {
    if pairs == [] then []
    else TwinsOf(v, ul, pairs[0], Boxes) + Twins(v, ul, pairs[1..])
  }

  /** `targets`: the peers of both twins that hold more than two candidates
      on the current board, in box order. */
  function Targets(w: Values, ul: UnitList, t: Twin, bs: seq<string>): (r: seq<string>)
    requires forall b :: b in bs ==> b in w
    ensures forall p :: p in r <==>
      p in bs && p in Peers(ul, t.first) && p in Peers(ul, t.second) && |w[p]| > 2
  {
    if bs == [] then []
    else
      var p := bs[0];
      (if p in Peers(ul, t.first) && p in Peers(ul, t.second) && |w[p]| > 2 then [p] else []) + Targets(w, ul, t, bs[1..])
  }

  /** `for digit in digits: assign_value(values, box, values[box].replace(digit, ''))` */
  function StripDigits(w: Values, log: seq<Values>, box: string, ds: string): (r: (Values, seq<Values>))
    requires box in w
    ensures r.0.Keys == w.Keys
    decreases |ds|
  {
    if ds == [] then (w, log)
    else
      var step := Assigned(w, box, Strip(w[box], {ds[0]}), log);
      StripDigits(step.0, step.1, box, ds[1..])
  }

  /** The targets of one twin, in order. */
  function StripTargets(w: Values, log: seq<Values>, targets: seq<string>, ds: string): (r: (Values, seq<Values>))
    requires forall p :: p in targets ==> p in w
    ensures r.0.Keys == w.Keys
    decreases |targets|
  {
    if targets == [] then (w, log)
    else
      var step := StripDigits(w, log, targets[0], ds);
      StripTargets(step.0, step.1, targets[1..], ds)
  }

  /** The twins in order, each with the targets of the board reached so far. */
  function ApplyTwins(w: Values, log: seq<Values>, ul: UnitList, twins: seq<Twin>): (r: (Values, seq<Values>))
    requires Board(w)
    ensures r.0.Keys == w.Keys
    decreases |twins|
  {
    if twins == [] then (w, log)
    else
      var step := StripTargets(w, log, Targets(w, ul, twins[0], Boxes), twins[0].digits);
      ApplyTwins(step.0, step.1, ul, twins[1..])
  }

  /** `naked_twins`: on a copy of the board, the twins are listed from the
      input and then processed one after another. */
  function NakedTwins(v: Values, ul: UnitList, log: seq<Values>): (r: (Values, seq<Values>))
    requires Board(v)
    ensures r.0.Keys == v.Keys
  {
    ApplyTwins(v, log, ul, Twins(v, ul, PairBoxes(v, Boxes)))
  }

  /** Stripping the digits one `assign_value` at a time strips them all. */
  lemma {:induction false} StripDigitsMeaning(w: Values, log: seq<Values>, box: string, ds: string)
    requires box in w
    ensures StripDigits(w, log, box, ds).0 == w[box := Strip(w[box], Elements(ds))]
    decreases |ds|
  {
    if ds == [] {
      StripNone(w[box], {});
      assert Elements(ds) == {};
      assert w[box := w[box]] == w;
    } else {
      var x := Strip(w[box], {ds[0]});
      var step := Assigned(w, box, x, log);
      var e := Elements(ds[1..]);
      StripDigitsMeaning(step.0, step.1, box, ds[1..]);
      ElementsCons(ds);
      StripStrip(w[box], {ds[0]}, e);
      assert w[box := x][box := Strip(x, e)] == w[box := Strip(x, e)];
    }
  }

  /** Stripping digits only appends to the snapshot list. */
  lemma {:induction false} StripDigitsLog(w: Values, log: seq<Values>, box: string, ds: string)
    requires box in w
    ensures |log| <= |StripDigits(w, log, box, ds).1| && StripDigits(w, log, box, ds).1[..|log|] == log
    decreases |ds|
  {
    if ds != [] {
      var step := Assigned(w, box, Strip(w[box], {ds[0]}), log);
      StripDigitsLog(step.0, step.1, box, ds[1..]);
      var r := StripDigits(step.0, step.1, box, ds[1..]);
      assert r.1[..|log|] == r.1[..|step.1|][..|log|];
    }
  }

  /** Each target loses the digits; every other box is unchanged. */
  lemma {:induction false} StripTargetsMeaning(w: Values, log: seq<Values>, targets: seq<string>, ds: string)
    requires forall p :: p in targets ==> p in w
    decreases |targets|
    ensures forall k :: k in w ==>
      StripTargets(w, log, targets, ds).0[k] == (if k in targets then Strip(w[k], Elements(ds)) else w[k])
  {
    if targets != [] {
      var p := targets[0];
      StripDigitsMeaning(w, log, p, ds);
      var step := StripDigits(w, log, p, ds);
      var w', log' := step.0, step.1;
      StripTargetsMeaning(w', log', targets[1..], ds);
      forall k | k in w && k == p && k in targets[1..]
        ensures Strip(w'[k], Elements(ds)) == Strip(w[k], Elements(ds))
      {
        StripStrip(w[k], Elements(ds), Elements(ds));
        assert Elements(ds) + Elements(ds) == Elements(ds);
      }
    }
  }

  /** Stripping targets only appends to the snapshot list. */
  lemma {:induction false} StripTargetsLog(w: Values, log: seq<Values>, targets: seq<string>, ds: string)
    requires forall p :: p in targets ==> p in w
    decreases |targets|
    ensures |log| <= |StripTargets(w, log, targets, ds).1| && StripTargets(w, log, targets, ds).1[..|log|] == log
  {
    if targets != [] {
      var p := targets[0];
      StripDigitsLog(w, log, p, ds);
      var step := StripDigits(w, log, p, ds);
      StripTargetsLog(step.0, step.1, targets[1..], ds);
      var r := StripTargets(step.0, step.1, targets[1..], ds);
      assert r.1[..|log|] == r.1[..|step.1|][..|log|];
    }
  }

  /** Digit `c` may leave box `k`: some twin pair of the input holds it and
      `k` is a peer of both twins. */
  ghost predicate Justified(v: Values, ul: UnitList, k: string, c: char)
  {
    exists t :: IsTwin(v, ul, t) && c in t.digits && k in Peers(ul, t.first) && k in Peers(ul, t.second)
  }

  /** What processing twins keeps true of the board `w` reached from `v`:
      candidates only leave, boxes with at most two never change, and every
      candidate that left was a twin digit of a pair `w` is a peer of. */
  ghost predicate TwinsKeep(v: Values, ul: UnitList, w: Values)
  {
    && Shrinks(v, w)
    && (forall k :: k in v && |v[k]| <= 2 ==> w[k] == v[k])
    && (forall k, c :: k in v && c in v[k] && c !in w[k] ==> Justified(v, ul, k, c))
  }

  /** After twin `t`: each peer of both twins holds at most two candidates
      or none of the twin digits. */
  predicate Cleared(w: Values, ul: UnitList, t: Twin)
  {
    forall k :: k in w && k in Peers(ul, t.first) && k in Peers(ul, t.second) ==>
      |w[k]| <= 2 || forall c :: c in t.digits ==> c !in w[k]
  }

  lemma ClearedKept(w: Values, w': Values, ul: UnitList, t: Twin)
    requires Cleared(w, ul, t) && Shrinks(w, w')
    ensures Cleared(w', ul, t)
  {
  }

  /** `w'` is `w` after twin `t`: its common peers with more than two
      candidates lose its digits, and nothing else changes. */
  predicate StripsTwin(w: Values, w': Values, ul: UnitList, t: Twin)
  {
    && Shrinks(w, w') && Cleared(w', ul, t)
    && (forall k :: k in w && |w[k]| <= 2 ==> w'[k] == w[k])
    && forall k, c :: k in w && c in w[k] && c !in w'[k] ==>
      c in t.digits && k in Peers(ul, t.first) && k in Peers(ul, t.second) && |w[k]| > 2
  }

  lemma TwinStrip(w: Values, ul: UnitList, log: seq<Values>, t: Twin, w': Values)
    requires Board(w) && UnitsOk(ul)
    requires w' == StripTargets(w, log, Targets(w, ul, t, Boxes), t.digits).0
    ensures StripsTwin(w, w', ul, t)
  {
    var targets := Targets(w, ul, t, Boxes);
    StripTargetsMeaning(w, log, targets, t.digits);
    PeersAreBoxes(ul, t.first);
  }

  /** A step that strips twin `t` keeps `TwinsKeep`. */
  lemma KeepStep(v: Values, ul: UnitList, w: Values, w': Values, t: Twin)
    requires IsTwin(v, ul, t) && TwinsKeep(v, ul, w) && StripsTwin(w, w', ul, t)
    ensures TwinsKeep(v, ul, w')
  {
    ShrinksTrans(v, w, w');
    forall k, c | k in v && c in v[k] && c !in w'[k] ensures Justified(v, ul, k, c) {
      if c in w[k] {
        assert IsTwin(v, ul, t) && c in t.digits;
      }
    }
  }

  /** One twin keeps `TwinsKeep` and leaves the twin cleared. */
  lemma TwinStep(v: Values, ul: UnitList, w: Values, log: seq<Values>, t: Twin)
    requires Board(w) && UnitsOk(ul) && IsTwin(v, ul, t) && TwinsKeep(v, ul, w)
    ensures var w' := StripTargets(w, log, Targets(w, ul, t, Boxes), t.digits).0;
      TwinsKeep(v, ul, w') && Shrinks(w, w') && Cleared(w', ul, t)
  {
    var w' := StripTargets(w, log, Targets(w, ul, t, Boxes), t.digits).0;
    TwinStrip(w, ul, log, t, w');
    KeepStep(v, ul, w, w', t);
  }

  /** Processing twins only appends to the snapshot list. */
  lemma {:induction false} ApplyTwinsLog(w: Values, log: seq<Values>, ul: UnitList, twins: seq<Twin>)
    requires Board(w)
    decreases |twins|
    ensures var r := ApplyTwins(w, log, ul, twins); |log| <= |r.1| && r.1[..|log|] == log
  {
    if twins != [] {
      var t := twins[0];
      StripTargetsLog(w, log, Targets(w, ul, t, Boxes), t.digits);
      var step := StripTargets(w, log, Targets(w, ul, t, Boxes), t.digits);
      var w', log' := step.0, step.1;
      ApplyTwinsLog(w', log', ul, twins[1..]);
      var r := ApplyTwins(w', log', ul, twins[1..]);
      assert log'[..|log|] == log;
      assert r.1[..|log|] == r.1[..|log'|][..|log|];
    }
  }

  /** The twins of the list, processed in order, keep `TwinsKeep` and leave
      each of them cleared. */
  lemma {:induction false} ApplyTwinsKeep(v: Values, ul: UnitList, w: Values, log: seq<Values>, twins: seq<Twin>)
    requires Board(w) && UnitsOk(ul) && TwinsKeep(v, ul, w)
    requires forall t :: t in twins ==> IsTwin(v, ul, t)
    decreases |twins|
    ensures var r := ApplyTwins(w, log, ul, twins); TwinsKeep(v, ul, r.0) && Shrinks(w, r.0)
    ensures forall t :: t in twins ==> Cleared(ApplyTwins(w, log, ul, twins).0, ul, t)
  {
    if twins != [] {
      var t := twins[0];
      TwinStep(v, ul, w, log, t);
      var step := StripTargets(w, log, Targets(w, ul, t, Boxes), t.digits);
      var w', log' := step.0, step.1;
      ApplyTwinsKeep(v, ul, w', log', twins[1..]);
      var r := ApplyTwins(w', log', ul, twins[1..]);
      ShrinksTrans(w, w', r.0);
      ClearedKept(w', r.0, ul, t);
    }
  }

  /** `naked_twins` copies the board and only removes candidates; boxes
      holding at most two are unchanged (the twins among them); a candidate
      leaves a box only if it is a digit of a twin pair the box is a peer of
      both of; and after it, each such common peer holds at most two
      candidates or none of the twin digits. The snapshot list only grows. */
  lemma NakedTwinsMeaning(v: Values, ul: UnitList, log: seq<Values>)
    requires Board(v) && UnitsOk(ul)
    ensures var r := NakedTwins(v, ul, log);
      && Shrinks(v, r.0)
      && (forall k :: k in v && |v[k]| <= 2 ==> r.0[k] == v[k])
      && (forall k, c :: k in v && c in v[k] && c !in r.0[k] ==> Justified(v, ul, k, c))
      && (forall t :: IsTwin(v, ul, t) ==> Cleared(r.0, ul, t))
      && |log| <= |r.1| && r.1[..|log|] == log
  {
    var twins := Twins(v, ul, PairBoxes(v, Boxes));
    forall t | t in twins ensures IsTwin(v, ul, t) {
    }
    ApplyTwinsKeep(v, ul, v, log, twins);
    ApplyTwinsLog(v, log, ul, twins);
    forall t | IsTwin(v, ul, t) ensures t in twins {
      PeersAreBoxes(ul, t.first);
    }
  }

  /** `naked_twins` keeps every solution the board allows: the twins hold
      the two digits between them, so no peer of both can hold either. */
  lemma NakedTwinsAllows(v: Values, ul: UnitList, s: Values, log: seq<Values>)
    requires Board(v) && UnitsOk(ul) && Filled(s) && PeersDiffer(s, ul) && Allows(v, s)
    ensures Allows(NakedTwins(v, ul, log).0, s)
  {
    NakedTwinsMeaning(v, ul, log);
    var r := NakedTwins(v, ul, log).0;
    forall k | k in Boxes ensures s[k][0] in r[k] {
      var c := s[k][0];
      if c !in r[k] {
        var t :| IsTwin(v, ul, t) && c in t.digits && k in Peers(ul, t.first) && k in Peers(ul, t.second);
        TwinKeeps(v, ul, s, t, k);
      }
    }
  }

  /** A peer of both twins does not hold a twin digit in an allowed solution. */
  lemma TwinKeeps(v: Values, ul: UnitList, s: Values, t: Twin, k: string)
    requires UnitsOk(ul) && Filled(s) && PeersDiffer(s, ul) && Allows(v, s) && IsTwin(v, ul, t)
    requires k in Boxes && k in Peers(ul, t.first) && k in Peers(ul, t.second)
    ensures s[k][0] !in t.digits
  {
    var a, b := t.first, t.second;
    PeersAreBoxes(ul, a);
    PeersMeaning(ul, b, k);
    assert s[a][0] in v[a] && s[b][0] in v[b];
    TwinDigits(s[a], s[b], s[k], t.digits);
  }

  /** Two different one-digit values drawn from a pair of digits use both
      of them, so a third one-digit value differing from both lies outside
      the pair. */
  lemma TwinDigits(x: string, y: string, z: string, ds: string)
    requires |x| == 1 && |y| == 1 && |z| == 1 && |ds| == 2
    requires x[0] in ds && y[0] in ds && x != y && z != x && z != y
    ensures z[0] !in ds
  {
    assert x == [x[0]] && y == [y[0]] && z == [z[0]];
  }
}
