/**
 * The Sudoku board: box names built by `cross`, the row, column and square
 * units, each box's peers, and `grid_values`, which reads a grid string
 * into a map from box name to its string of candidate digits.
 *
 * A board is a `map<string, string>`; a candidate string such as "159"
 * lists the digits a box may still take. The unit list is a parameter
 * everywhere, because `solve` extends the module-level list with the two
 * diagonals and recomputes units and peers from it.
 */
module SudokuBoard {
  import opened Wrappers
  import opened Collections

  /** Nine consecutive characters from `first`. */
  function Run9(first: char): (r: string)
    requires first as int + 9 < 0xD800
  {
    seq(9, i requires 0 <= i < 9 => (first as int + i) as char)
  }

  /** `rows` and `cols`: the letters `A` to `I` and the digits `1` to `9`. */
  const Rows := Run9(FirstRow)
  const Cols := Run9(FirstCol)

  /** The first row letter and the first column digit. Naming them, rather
      than writing the literals into `Rows` and `Cols`, keeps the verifier
      from expanding `Cross(Rows, Cols)` into all 81 names in every proof
      that mentions `Boxes`. */
  const FirstRow := 'A'
  const FirstCol := '1'

  lemma RowsCols()
    ensures Rows == "ABCDEFGHI" && Cols == "123456789"
  {
  }

  /** The candidate digits `1` to `9`. */
  const Digits := Cols

  type Values = map<string, string>
  type UnitList = seq<seq<string>>

  // ------------------------------------------------------------ cross, boxes

  /** `cross(a, b)`: a character of `a` followed by one of `b`, row by row. */
  function Cross(a: string, b: string): (r: seq<string>)
    ensures |r| == |a| * |b|
  {
    if a == [] then []
    else
      var row := seq(|b|, j requires 0 <= j < |b| => [a[0], b[j]]);
      assert |a| * |b| == |b| + (|a| - 1) * |b|;
      row + Cross(a[1..], b)
  }

  /** The names `cross` builds are exactly the pairs of a character of `a`
      and one of `b`. */
  lemma {:induction false} CrossMembers(a: string, b: string)
    ensures forall x :: x in Cross(a, b) <==> |x| == 2 && x[0] in a && x[1] in b
  {
    if a != [] {
      var row := seq(|b|, j requires 0 <= j < |b| => [a[0], b[j]]);
      CrossMembers(a[1..], b);
      assert Cross(a, b) == row + Cross(a[1..], b);
      forall x | |x| == 2 && x[0] == a[0] && x[1] in b ensures x in row {
        var j :| 0 <= j < |b| && b[j] == x[1];
        assert row[j] == x;
      }
      assert forall x :: x in a <==> x == a[0] || x in a[1..];
    }
  }

  /** Row-major order: the name at `i * |b| + j` pairs `a[i]` with `b[j]`. */
  lemma {:induction false} CrossAt(a: string, b: string, i: nat, j: nat)
    requires i < |a| && j < |b|
    ensures i * |b| + j < |Cross(a, b)| && Cross(a, b)[i * |b| + j] == [a[i], b[j]]
  {
    var row := seq(|b|, j requires 0 <= j < |b| => [a[0], b[j]]);
    assert Cross(a, b) == row + Cross(a[1..], b);
    if i > 0 {
      CrossAt(a[1..], b, i - 1, j);
      var k := (i - 1) * |b| + j;
      assert i * |b| + j == |b| + k;
      assert a[1..][i - 1] == a[i];
    }
  }

  /** Distinct characters give distinct names. */
  lemma {:induction false} CrossDistinct(a: string, b: string)
    requires Distinct(a) && Distinct(b)
    ensures Distinct(Cross(a, b))
  {
    if a != [] {
      var row := seq(|b|, j requires 0 <= j < |b| => [a[0], b[j]]);
      assert Distinct(a[1..]) by {
        forall i, j | 0 <= i < j < |a[1..]| ensures a[1..][i] != a[1..][j] {
          assert a[1..][i] == a[i + 1] && a[1..][j] == a[j + 1];
        }
      }
      CrossDistinct(a[1..], b);
      assert Distinct(row) by {
        forall i, j | 0 <= i < j < |row| ensures row[i] != row[j] {
          assert row[i][1] == b[i] && row[j][1] == b[j];
        }
      }
      CrossMembers(a[1..], b);
      forall x | x in row ensures x !in Cross(a[1..], b) {
        assert x[0] == a[0] && a[0] !in a[1..];
      }
      assert Cross(a, b) == row + Cross(a[1..], b);
      DistinctConcat(row, Cross(a[1..], b));
    }
  }

  /** The 81 box names `A1` ... `I9`. */
  const Boxes := Cross(Rows, Cols)

  lemma BoxesFacts()
    ensures |Boxes| == 81 && Distinct(Boxes)
    ensures forall x :: x in Boxes <==> |x| == 2 && x[0] in Rows && x[1] in Cols
  {
    CrossDistinct(Rows, Cols);
    CrossMembers(Rows, Cols);
  }

  /** The position of a box in the list of boxes. */
  lemma BoxIndex(k: string) returns (i: nat)
    requires k in Boxes
    ensures i < 81 && Boxes[i] == k
  {
    BoxesFacts();
    i :| 0 <= i < |Boxes| && Boxes[i] == k;
  }

  /** A row letter and a column digit name a box. */
  lemma BoxNamed(r: char, c: char)
    requires r in Rows && c in Cols
    ensures [r, c] in Boxes
  {
    CrossMembers(Rows, Cols);
    var x := [r, c];
    assert |x| == 2 && x[0] == r && x[1] == c;
  }

  // ------------------------------------------------------------------- units

  /** The row letters and the column digits in threes. */
  const Bands := [Rows[0..3], Rows[3..6], Rows[6..9]]
  const Stacks := [Cols[0..3], Cols[3..6], Cols[6..9]]

  /** The row of a name, 0 for `A` up to 8 for `I`; -1 for the empty name. */
  function RowIndex(b: string): int
  {
    if |b| < 1 then -1 else b[0] as int - FirstRow as int
  }

  /** The column of a name, 0 for `1` up to 8 for `9`; -1 without a second character. */
  function ColIndex(b: string): int
  {
    if |b| < 2 then -1 else b[1] as int - FirstCol as int
  }

  /** Offset `i` of `Run9(first)` is the character `i` places after `first`. */
  lemma RunAt(first: char, i: int)
    requires first as int + 9 < 0xD800 && 0 <= i < 9
    ensures Run9(first)[i] as int == first as int + i
  {
  }

  /** A slice of `Run9(first)` holds exactly the characters at those offsets. */
  lemma RunSlice(first: char, i: int, j: int, c: char)
    requires first as int + 9 < 0xD800 && 0 <= i <= j <= 9
    ensures c in Run9(first)[i..j] <==> i <= c as int - first as int < j
  {
    var s := Run9(first)[i..j];
    if c in s {
      var k :| 0 <= k < |s| && s[k] == c;
      assert s[k] == Run9(first)[i + k];
    }
    if i <= c as int - first as int < j {
      var k := c as int - first as int - i;
      assert s[k] == Run9(first)[i + k];
    }
  }

  /** A box is a two-character name whose row and column are both 0 to 8. */
  lemma BoxCoords(b: string)
    ensures b in Boxes <==> |b| == 2 && 0 <= RowIndex(b) < 9 && 0 <= ColIndex(b) < 9
  {
    BoxesFacts();
    if |b| == 2 {
      RunSlice(FirstRow, 0, 9, b[0]);
      RunSlice(FirstCol, 0, 9, b[1]);
      assert Rows[0..9] == Rows && Cols[0..9] == Cols;
    }
  }

  /** The names crossed from the rows `i..j` and the columns `m..n` are the
      boxes whose row and column fall in those ranges. */
  lemma CrossBlock(i: int, j: int, m: int, n: int, b: string)
    requires 0 <= i <= j <= 9 && 0 <= m <= n <= 9
    ensures b in Cross(Rows[i..j], Cols[m..n]) <==>
      b in Boxes && i <= RowIndex(b) < j && m <= ColIndex(b) < n
  {
    CrossMembers(Rows[i..j], Cols[m..n]);
    BoxCoords(b);
    if |b| == 2 {
      RunSlice(FirstRow, i, j, b[0]);
      RunSlice(FirstCol, m, n, b[1]);
    }
  }

  /** `row_units`: unit `k` holds exactly the boxes of row `k`. */
  function RowUnits(): (r: UnitList)
    ensures |r| == 9
    ensures forall k, b :: 0 <= k < 9 ==> (b in r[k] <==> b in Boxes && RowIndex(b) == k)
  {
    var r := seq(9, k requires 0 <= k < 9 => Cross(Rows[k..k + 1], Cols));
    forall k, b | 0 <= k < 9 ensures b in r[k] <==> b in Boxes && RowIndex(b) == k {
      RowMember(k, b);
    }
    r
  }

  lemma RowMember(k: int, b: string)
    requires 0 <= k < 9
    ensures b in Cross(Rows[k..k + 1], Cols) <==> b in Boxes && RowIndex(b) == k
  {
    assert Cols[0..9] == Cols;
    CrossBlock(k, k + 1, 0, 9, b);
    BoxCoords(b);
  }

  /** `column_units`: unit `k` holds exactly the boxes of column `k`. */
  function ColumnUnits(): (r: UnitList)
    ensures |r| == 9
    ensures forall k, b :: 0 <= k < 9 ==> (b in r[k] <==> b in Boxes && ColIndex(b) == k)
  {
    var r := seq(9, k requires 0 <= k < 9 => Cross(Rows, Cols[k..k + 1]));
    forall k, b | 0 <= k < 9 ensures b in r[k] <==> b in Boxes && ColIndex(b) == k {
      ColumnMember(k, b);
    }
    r
  }

  lemma ColumnMember(k: int, b: string)
    requires 0 <= k < 9
    ensures b in Cross(Rows, Cols[k..k + 1]) <==> b in Boxes && ColIndex(b) == k
  {
    assert Rows[0..9] == Rows;
    CrossBlock(0, 9, k, k + 1, b);
    BoxCoords(b);
  }

  /** `square_units`, band by band: unit `k` holds exactly the boxes whose
      row lies in band `k / 3` and whose column lies in stack `k % 3`. */
  function SquareUnits(): (r: UnitList)
    ensures |r| == 9
    ensures forall k, b :: 0 <= k < 9 ==>
      (b in r[k] <==> b in Boxes && RowIndex(b) / 3 == k / 3 && ColIndex(b) / 3 == k % 3)
  {
    var r := seq(9, k requires 0 <= k < 9 => Cross(Bands[k / 3], Stacks[k % 3]));
    forall k, b | 0 <= k < 9
      ensures b in r[k] <==> b in Boxes && RowIndex(b) / 3 == k / 3 && ColIndex(b) / 3 == k % 3
    {
      SquareMember(k, b);
    }
    r
  }

  lemma SquareMember(k: int, b: string)
    requires 0 <= k < 9
    ensures b in Cross(Bands[k / 3], Stacks[k % 3]) <==>
      b in Boxes && RowIndex(b) / 3 == k / 3 && ColIndex(b) / 3 == k % 3
  {
    var q, m := k / 3, k % 3;
    assert Bands[q] == Rows[3 * q..3 * q + 3] && Stacks[m] == Cols[3 * m..3 * m + 3];
    CrossBlock(3 * q, 3 * q + 3, 3 * m, 3 * m + 3, b);
    BoxCoords(b);
  }

  /** `unitlist`: the rows, then the columns, then the squares. */
  function StandardUnits(): (r: UnitList)
    ensures |r| == 27
  {
    RowUnits() + ColumnUnits() + SquareUnits()
  }

  /** The names pairing `a[i]` with `b[i]`, position by position. */
  function Diagonal(a: string, b: string): (r: seq<string>)
    requires |a| == |b|
    ensures |r| == |a| && forall i :: 0 <= i < |a| ==> r[i] == [a[i], b[i]]
  {
    seq(|a|, i requires 0 <= i < |a| => [a[i], b[i]])
  }

  /** The row letters from last to first. */
  function Reversed(s: string): (r: string)
    ensures |r| == |s| && forall i :: 0 <= i < |s| ==> r[i] == s[|s| - 1 - i]
  {
    seq(|s|, i requires 0 <= i < |s| => s[|s| - 1 - i])
  }

  /** The two diagonals `solve` adds: `A1 B2 ... I9`, the boxes whose row
      equals their column, and `I1 H2 ... A9`, those whose row and column
      add up to 8. */
  function Diagonals(): (r: UnitList)
    ensures |r| == 2
    ensures forall b :: b in r[0] <==> b in Boxes && RowIndex(b) == ColIndex(b)
    ensures forall b :: b in r[1] <==> b in Boxes && RowIndex(b) + ColIndex(b) == 8
  {
    var r := [Diagonal(Rows, Cols), Diagonal(Reversed(Rows), Cols)];
    forall b ensures b in r[0] <==> b in Boxes && RowIndex(b) == ColIndex(b) {
      DiagonalMember(Rows, b, 0);
    }
    forall b ensures b in r[1] <==> b in Boxes && RowIndex(b) + ColIndex(b) == 8 {
      DiagonalMember(Reversed(Rows), b, 8);
    }
    r
  }

  /** A diagonal whose `i`-th row letter is `Rows[i]` (`s == 0`) or
      `Rows[8 - i]` (`s == 8`) holds the boxes whose row is `i` or `8 - i`
      at column `i`. */
  lemma DiagonalMember(a: string, b: string, s: int)
    requires s == 0 || s == 8
    requires |a| == 9 && forall j :: 0 <= j < 9 ==> a[j] == Rows[if s == 0 then j else 8 - j]
    ensures b in Diagonal(a, Cols) <==>
      b in Boxes && (if s == 0 then RowIndex(b) == ColIndex(b) else RowIndex(b) + ColIndex(b) == 8)
  {
    var d := Diagonal(a, Cols);
    BoxCoords(b);
    if b in d {
      var i :| 0 <= i < 9 && d[i] == b;
      DiagonalAt(a, s, i);
    }
    if b in Boxes && (if s == 0 then RowIndex(b) == ColIndex(b) else RowIndex(b) + ColIndex(b) == 8) {
      var i := ColIndex(b);
      DiagonalAt(a, s, i);
      assert b == [b[0], b[1]];
    }
  }

  /** Place `i` of such a diagonal is the box at row `i` or `8 - i`, column `i`. */
  lemma DiagonalAt(a: string, s: int, i: int)
    requires s == 0 || s == 8
    requires |a| == 9 && forall j :: 0 <= j < 9 ==> a[j] == Rows[if s == 0 then j else 8 - j]
    requires 0 <= i < 9
    ensures var x := Diagonal(a, Cols)[i];
      && |x| == 2 && ColIndex(x) == i && RowIndex(x) == (if s == 0 then i else 8 - i)
      && x[0] == a[i] && x[1] == Cols[i]
  {
    var x := Diagonal(a, Cols)[i];
    RunAt(FirstCol, i);
    RunAt(FirstRow, if s == 0 then i else 8 - i);
    assert x[0] == Rows[if s == 0 then i else 8 - i];
  }

  /** Every unit is made of boxes. */
  predicate UnitsOk(ul: UnitList)
  {
    forall u, b :: u in ul && b in u ==> b in Boxes
  }

  /** The units of a list are made of boxes when those of each part are. */
  lemma UnitsOkConcat(ul: UnitList, ul': UnitList)
    requires UnitsOk(ul) && UnitsOk(ul')
    ensures UnitsOk(ul + ul')
  {
  }

  /** Names crossed from row letters and column digits are boxes. */
  lemma CrossInBoxes(a: string, b: string)
    requires forall c :: c in a ==> c in Rows
    requires forall c :: c in b ==> c in Cols
    ensures forall x :: x in Cross(a, b) ==> x in Boxes
  {
    BoxesFacts();
    CrossMembers(a, b);
  }

  lemma RowUnitsOk()
    ensures UnitsOk(RowUnits())
  {
    forall k | 0 <= k < 9 ensures forall b :: b in RowUnits()[k] ==> b in Boxes {
      CrossInBoxes(Rows[k..k + 1], Cols);
    }
  }

  lemma ColumnUnitsOk()
    ensures UnitsOk(ColumnUnits())
  {
    forall k | 0 <= k < 9 ensures forall b :: b in ColumnUnits()[k] ==> b in Boxes {
      CrossInBoxes(Rows, Cols[k..k + 1]);
    }
  }

  lemma SquareUnitsOk()
    ensures UnitsOk(SquareUnits())
  {
    forall k | 0 <= k < 9 ensures forall b :: b in SquareUnits()[k] ==> b in Boxes {
      var a, c := Bands[k / 3], Stacks[k % 3];
      assert forall x :: x in a ==> x in Rows;
      assert forall x :: x in c ==> x in Cols;
      CrossInBoxes(a, c);
    }
  }

  lemma StandardUnitsOk()
    ensures UnitsOk(StandardUnits())
  {
    RowUnitsOk();
    ColumnUnitsOk();
    SquareUnitsOk();
    UnitsOkConcat(RowUnits(), ColumnUnits());
    UnitsOkConcat(RowUnits() + ColumnUnits(), SquareUnits());
  }

  /** A diagonal of row letters and column digits is made of boxes. */
  lemma DiagonalOk(a: string, b: string)
    requires |a| == |b|
    requires forall c :: c in a ==> c in Rows
    requires forall c :: c in b ==> c in Cols
    ensures forall x :: x in Diagonal(a, b) ==> x in Boxes
  {
    forall x | x in Diagonal(a, b) ensures x in Boxes {
      var i :| 0 <= i < |a| && Diagonal(a, b)[i] == x;
      BoxNamed(a[i], b[i]);
    }
  }

  lemma DiagonalsOk()
    ensures UnitsOk(Diagonals())
  {
    DiagonalOk(Rows, Cols);
    var r := Reversed(Rows);
    forall c | c in r ensures c in Rows {
      var i :| 0 <= i < |r| && r[i] == c;
      assert Rows[|Rows| - 1 - i] in Rows;
    }
    DiagonalOk(r, Cols);
  }

  /** Both unit lists `solution.py` uses are made of boxes. */
  lemma UnitListsOk()
    ensures UnitsOk(StandardUnits()) && UnitsOk(StandardUnits() + Diagonals())
  {
    StandardUnitsOk();
    DiagonalsOk();
    UnitsOkConcat(StandardUnits(), Diagonals());
  }

  /** `sum(us, [])`: the units' boxes one after another. */
  function Flatten(us: UnitList): seq<string>
  {
    if us == [] then []
    else us[0] + Flatten(us[1..])
  }

  lemma {:induction false} FlattenMembers(us: UnitList, b: string)
    ensures b in Flatten(us) <==> exists u :: u in us && b in u
  {
    if us != [] {
      FlattenMembers(us[1..], b);
      assert forall u :: u in us <==> u == us[0] || u in us[1..];
    }
  }

  /** `units[s]`: the units holding box `s`, in unit-list order. */
  function UnitsOf(ul: UnitList, s: string): UnitList
  {
    if ul == [] then []
    else (if s in ul[0] then [ul[0]] else []) + UnitsOf(ul[1..], s)
  }

  lemma {:induction false} UnitsOfMembers(ul: UnitList, s: string, u: seq<string>)
    ensures u in UnitsOf(ul, s) <==> u in ul && s in u
  {
    if ul != [] {
      UnitsOfMembers(ul[1..], s, u);
    }
  }

  /** `peers[s]`: the boxes of the units holding `s`, as a set, without `s`. */
  function Peers(ul: UnitList, s: string): set<string>
  {
    Elements(Flatten(UnitsOf(ul, s))) - {s}
  }

  /** Two boxes are peers exactly when they differ and share a unit; so no
      box is its own peer and the relation is symmetric. */
  lemma PeersMeaning(ul: UnitList, a: string, b: string)
    ensures b in Peers(ul, a) <==> a != b && exists u :: u in ul && a in u && b in u
    ensures a !in Peers(ul, a)
    ensures b in Peers(ul, a) <==> a in Peers(ul, b)
  {
    PeersShared(ul, a, b);
    PeersShared(ul, b, a);
  }

  lemma PeersShared(ul: UnitList, a: string, b: string)
    ensures b in Peers(ul, a) <==> a != b && exists u :: u in ul && a in u && b in u
  {
    FlattenMembers(UnitsOf(ul, a), b);
    if b in Flatten(UnitsOf(ul, a)) {
      var u :| u in UnitsOf(ul, a) && b in u;
      UnitsOfMembers(ul, a, u);
    }
    if exists u :: u in ul && a in u && b in u {
      var u :| u in ul && a in u && b in u;
      UnitsOfMembers(ul, a, u);
    }
  }

  /** Peers of a box are boxes. */
  lemma PeersAreBoxes(ul: UnitList, a: string)
    requires UnitsOk(ul)
    ensures forall b :: b in Peers(ul, a) ==> b in Boxes
  {
    forall b | b in Peers(ul, a) ensures b in Boxes {
      PeersShared(ul, a, b);
    }
  }

  // ------------------------------------------------------------- grid_values

  /** What `grid_values` keeps for one character of the grid: one candidate
      string exactly for a '.' or a digit, allowing every digit the
      character admits — all nine for '.', only itself for a digit. */
  function Cell(c: char): (r: seq<string>)
    ensures |r| <= 1
    ensures r != [] <==> c == '.' || c in Digits
    ensures forall x, d :: x in r ==> (d in x <==> d in Digits && (c == '.' || d == c))
    ensures forall x :: x in r ==> |x| == (if c == '.' then 9 else 1)
  {
    if c == '.' then [Digits]
    else if c in Digits then [[c]]
    else []
  }

  /** The candidate strings read from a grid, one per '.' or digit. */
  function Kept(grid: string): (r: seq<string>)
    ensures |r| <= |grid|
    ensures forall x :: x in r ==> x == Digits || (|x| == 1 && x[0] in Digits)
  {
    if grid == [] then []
    else Cell(grid[0]) + Kept(grid[1..])
  }

  /** What a '.' or a digit of the grid reads as. */
  function Entry(ch: char): string
  {
    if ch == '.' then Digits else [ch]
  }

  /** A grid of only '.' and digits keeps one entry per character. */
  lemma {:induction false} KeptWellFormed(grid: string)
    requires forall i :: 0 <= i < |grid| ==> grid[i] == '.' || grid[i] in Digits
    ensures |Kept(grid)| == |grid|
    ensures forall i :: 0 <= i < |grid| ==> Kept(grid)[i] == Entry(grid[i])
  {
    if grid != [] {
      var t := grid[1..];
      forall i | 0 <= i < |t| ensures t[i] == '.' || t[i] in Digits {
        assert t[i] == grid[i + 1];
      }
      KeptWellFormed(t);
      var k := Kept(t);
      assert Cell(grid[0]) == [Entry(grid[0])];
      assert Kept(grid) == [Entry(grid[0])] + k;
      forall i | 1 <= i < |grid| ensures Kept(grid)[i] == Entry(grid[i]) {
        assert t[i - 1] == grid[i];
      }
    }
  }

  /** `dict(zip(keys, vals))`: later pairs overwrite earlier ones. */
  function ZipMap(keys: seq<string>, vals: seq<string>): (r: Values)
    requires |keys| == |vals|
    ensures r.Keys == Elements(keys)
  {
    if keys == [] then map[]
    else
      var n := |keys| - 1;
      assert Elements(keys) == Elements(keys[..n]) + {keys[n]} by {
        assert keys == keys[..n] + [keys[n]];
      }
      ZipMap(keys[..n], vals[..n])[keys[n] := vals[n]]
  }

  /** With no key repeated, each key maps to its own value. */
  lemma {:induction false} ZipMapAt(keys: seq<string>, vals: seq<string>)
    requires |keys| == |vals| && Distinct(keys)
    ensures forall i :: 0 <= i < |keys| ==> ZipMap(keys, vals)[keys[i]] == vals[i]
  {
    if keys != [] {
      var n := |keys| - 1;
      ZipMapAt(keys[..n], vals[..n]);
      forall i | 0 <= i < n ensures ZipMap(keys, vals)[keys[i]] == vals[i] {
        assert keys[i] != keys[n];
        assert keys[..n][i] == keys[i] && vals[..n][i] == vals[i];
      }
    }
  }

  /** `grid_values`: the assertion fails unless exactly 81 characters are
      kept; otherwise box `Boxes[i]` gets the `i`-th kept string. */
  function GridValues(grid: string): (r: Result<Values>)
    ensures r.Failure? <==> |Kept(grid)| != 81
    ensures r.Failure? ==> r.error == AssertionError
    ensures r.Success? ==> r.value.Keys == Elements(Boxes)
    ensures r.Success? ==> forall i :: 0 <= i < 81 ==> r.value[Boxes[i]] == Kept(grid)[i]
  {
    BoxesFacts();
    var kept := Kept(grid);
    if |kept| != 81 then Failure(AssertionError)
    else
      ZipMapAt(Boxes, kept);
      Success(ZipMap(Boxes, kept))
  }

  /** An 81-character grid of '.' and digits always reads, '.' giving all
      digits and a digit itself. */
  lemma GridValuesWellFormed(grid: string)
    requires |grid| == 81
    requires forall i :: 0 <= i < |grid| ==> grid[i] == '.' || grid[i] in Digits
    ensures GridValues(grid).Success?
    ensures forall i :: 0 <= i < 81 ==> GridValues(grid).value[Boxes[i]] == Entry(grid[i])
  {
    KeptWellFormed(grid);
  }

  // --------------------------------------------------------- candidate strings

  /** The candidates of `s` not in `ds`, in order: `s.replace(d, '')` for
      each `d` of `ds`. */
  function Strip(s: string, ds: set<char>): (r: string)
    ensures |r| <= |s|
    ensures forall c :: c in r <==> c in s && c !in ds
  {
    if s == [] then []
    else (if s[0] in ds then [] else [s[0]]) + Strip(s[1..], ds)
  }

  /** Removing one set of digits and then another removes both. */
  lemma {:induction false} StripStrip(s: string, a: set<char>, b: set<char>)
    ensures Strip(Strip(s, a), b) == Strip(s, a + b)
  {
    if s != [] {
      StripStrip(s[1..], a, b);
      if s[0] in a {
        assert Strip(s, a) == Strip(s[1..], a);
      } else {
        var t := Strip(s, a);
        assert t == [s[0]] + Strip(s[1..], a);
        assert t[0] == s[0] && t[1..] == Strip(s[1..], a);
      }
    }
  }

  /** Removing digits the string does not hold changes nothing. */
  lemma {:induction false} StripNone(s: string, ds: set<char>)
    requires forall c :: c in s ==> c !in ds
    ensures Strip(s, ds) == s
  {
    if s != [] {
      StripNone(s[1..], ds);
      assert s == [s[0]] + s[1..];
    }
  }

  /** `w` holds, box by box, some of the candidates of `v` and no more of them. */
  predicate Shrinks(v: Values, w: Values)
  {
    w.Keys == v.Keys &&
    forall k :: k in v ==> |w[k]| <= |v[k]| && forall c :: c in w[k] ==> c in v[k]
  }

  lemma ShrinksTrans(u: Values, v: Values, w: Values)
    requires Shrinks(u, v) && Shrinks(v, w)
    ensures Shrinks(u, w)
  {
  }

  /** A board holding every box. */
  predicate Board(v: Values)
  {
    forall b :: b in Boxes ==> b in v
  }

  /** The boxes with exactly one candidate. */
  function Solved(v: Values): set<string>
  {
    set k | k in v && |v[k]| == 1
  }

  /** Shrinking keeps a solved box solved, unless it empties. */
  lemma SolvedKept(v: Values, w: Values)
    requires Shrinks(v, w) && forall k :: k in w ==> w[k] != []
    ensures Solved(v) <= Solved(w)
    ensures forall k :: k in Solved(v) ==> w[k] == v[k]
  {
    forall k | k in Solved(v) ensures w[k] == v[k] {
      assert w[k][0] in v[k];
    }
  }
}
