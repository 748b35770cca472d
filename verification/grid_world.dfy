/**
 * A rectangular grid stored as one flat row-major list of cells, the
 * playground the path-finding exercises run on. Cell (x, y) — column x,
 * row y — lives at flat index `x + cols * y`.
 */
module GridWorld {
  import opened Wrappers
  import opened Text

  /** A cell holds a number (0 = free, otherwise an obstacle cost) or the
      marker `'x'` that `add_path` writes. */
  datatype Cell = Val(n: int) | Mark

  datatype Grid = Grid(rows: int, cols: int, cells: seq<Cell>)

  /** Length of `[0] * rows * cols` in Python: a non-positive factor gives []. */
  function Area(rows: int, cols: int): nat
  {
    if rows > 0 && cols > 0 then rows * cols else 0
  }

  /** Every grid the operations below produce has exactly `Area` cells. */
  predicate Valid(g: Grid)
  {
    |g.cells| == Area(g.rows, g.cols)
  }

  /** The constructor: a grid of the given shape on which `get_value`
      reads 0 at every in-bounds position. */
  function New(rows: int, cols: int): (g: Grid)
    ensures Valid(g) && g.rows == rows && g.cols == cols
    ensures forall x, y :: InBounds(g, x, y) ==> Value(g, x, y) == Some(Val(0))
  {
    var g := Grid(rows, cols, seq(Area(rows, cols), _ => Val(0)));
    forall x, y | InBounds(g, x, y) ensures Value(g, x, y) == Some(Val(0)) {
      FlatIndexInRange(g, x, y);
    }
    g
  }

  function NodeId(g: Grid, x: int, y: int): int
  {
    x + g.cols * y
  }

  /** Python's `a // b` and `a % b`: floor division, so the remainder takes
      the sign of `b`. */
  function PyDivMod(a: int, b: int): (qr: (int, int))
    requires b != 0
    ensures a == b * qr.0 + qr.1
    ensures b > 0 ==> 0 <= qr.1 < b
    ensures b < 0 ==> b < qr.1 <= 0
  {
    var q, e := a / b, a % b;
    if b < 0 && e != 0 then (q - 1, e + b) else (q, e)
  }

  /** `get_coords`: the column is `id % cols` and the row `(id - x) / cols`,
      an exact quotient (the float rounding of Python's `/` is not modelled);
      a grid without columns divides by zero. */
  function Coords(g: Grid, id: int): (r: Result<(int, int)>)
    ensures r.Failure? <==> g.cols == 0
    ensures r.Success? ==> NodeId(g, r.value.0, r.value.1) == id
  {
    if g.cols == 0 then Failure(ZeroDivisionError)
    else
      var (y, x) := PyDivMod(id, g.cols);
      Success((x, y))
  }

  /** A non-zero multiple of a positive `c` is at least `c` away from zero. */
  lemma {:induction false} MultipleSign(c: int, k: int)
    requires c > 0
    ensures k >= 1 ==> c * k >= c
    ensures k <= -1 ==> c * k <= -c
  {
    if k >= 1 {
      assert c * k == c + c * (k - 1);
      assert c * (k - 1) >= 0;
    } else if k <= -1 {
      assert c * k == -c + c * (k + 1);
      assert c * (k + 1) <= 0;
    }
  }

  lemma {:induction false} MultipleBounds(c: int, k: int)
    requires c > 0 && -c < c * k < c
    ensures k == 0
  {
    MultipleSign(c, k);
  }

  lemma AffineDivMod(x: int, c: int, y: int)
    requires 0 <= x < c
    ensures (x + c * y) % c == x && (x + c * y) / c == y
    ensures PyDivMod(x + c * y, c) == (y, x)
  {
    var a := x + c * y;
    var q, r := a / c, a % c;
    assert a == c * q + r;
    assert c * (q - y) == x - r;
    MultipleBounds(c, q - y);
  }

  /** `get_coords(get_node_id(x, y)) == (x, y)` for every column x. */
  lemma CoordsOfNodeId(g: Grid, x: int, y: int)
    requires 0 <= x < g.cols
    ensures Coords(g, NodeId(g, x, y)) == Success((x, y))
  {
    AffineDivMod(x, g.cols, y);
  }

  /** For a positive column count, `get_node_id(get_coords(id)) == id` as well. */
  lemma NodeIdOfCoords(g: Grid, id: int)
    requires g.cols > 0
    ensures Coords(g, id).Success?
    ensures 0 <= Coords(g, id).value.0 < g.cols
    ensures NodeId(g, Coords(g, id).value.0, Coords(g, id).value.1) == id
  {
  }

  predicate InBounds(g: Grid, x: int, y: int)
  {
    0 <= x < g.cols && 0 <= y < g.rows
  }

  lemma {:induction false} FlatIndexInRange(g: Grid, x: int, y: int)
    requires InBounds(g, x, y)
    ensures 0 <= NodeId(g, x, y) < Area(g.rows, g.cols)
  {
    assert g.cols * y <= g.cols * (g.rows - 1) by {
      assert g.cols * (g.rows - 1) - g.cols * y == g.cols * (g.rows - 1 - y);
    }
    assert g.cols * y >= 0;
  }

  /** `get_value`: `None` exactly outside [0, cols) x [0, rows). */
  function Value(g: Grid, x: int, y: int): (r: Option<Cell>)
    requires Valid(g)
    ensures r.None? <==> !InBounds(g, x, y)
    ensures r.Some? ==> 0 <= NodeId(g, x, y) < |g.cells| && r.value == g.cells[NodeId(g, x, y)]
  {
    if 0 <= x < g.cols && 0 <= y < g.rows then
      FlatIndexInRange(g, x, y);
      Some(g.cells[x + g.cols * y])
    else None
  }

  /** A fresh grid reads 0 everywhere inside its bounds. */
  lemma NewGridIsFree(rows: int, cols: int, x: int, y: int)
    requires InBounds(New(rows, cols), x, y)
    ensures Value(New(rows, cols), x, y) == Some(Val(0))
  {
  }

  /** One candidate move kept by `adj` when the target lies in the grid. */
  function Step(g: Grid, x: int, y: int): seq<(int, Cell)>
    requires Valid(g)
  {
    match Value(g, x, y)
    case Some(v) => [(NodeId(g, x, y), v)]
    case None => []
  }

  /** `adj`: the in-bounds neighbours right, left, up, down, each with the
      neighbour cell's value as its cost. */
  function Adj(g: Grid, id: int): (r: Result<seq<(int, Cell)>>)
    requires Valid(g)
    ensures r.Failure? <==> g.cols == 0
    ensures r.Success? ==> |r.value| <= 4
  {
    var xy :- Coords(g, id);
    Success(Moves(g, xy.0, xy.1))
  }

  function Abs(n: int): nat { if n < 0 then -n else n }

  lemma StepContents(g: Grid, nx: int, ny: int, e: (int, Cell))
    requires Valid(g)
    ensures e in Step(g, nx, ny) <==>
      InBounds(g, nx, ny) && e.0 == NodeId(g, nx, ny) && Value(g, nx, ny) == Some(e.1)
  {
  }

  /** `e` is an in-bounds cell one step away from `(x, y)`, paired with that
      cell's value. */
  ghost predicate Neighbour(g: Grid, x: int, y: int, e: (int, Cell))
    requires Valid(g)
  {
    exists nx, ny :: InBounds(g, nx, ny) && Abs(nx - x) + Abs(ny - y) == 1
                     && e.0 == NodeId(g, nx, ny) && Value(g, nx, ny) == Some(e.1)
  }

  /** Every entry `adj` returns is an in-bounds cell one step away from the
      node, with that cell's value as its cost. */
  lemma AdjSound(g: Grid, id: int, e: (int, Cell))
    requires Valid(g) && g.cols > 0 && e in Adj(g, id).value
    ensures Neighbour(g, Coords(g, id).value.0, Coords(g, id).value.1, e)
  {
    AdjMoves(g, id);
    MovesSound(g, Coords(g, id).value.0, Coords(g, id).value.1, e);
  }

  lemma MovesSound(g: Grid, x: int, y: int, e: (int, Cell))
    requires Valid(g) && e in Moves(g, x, y)
    ensures Neighbour(g, x, y, e)
  {
    var a, b, c, d := Step(g, x + 1, y), Step(g, x - 1, y), Step(g, x, y - 1), Step(g, x, y + 1);
    assert e in a + b + c + d;
    if e in a {
      StepContents(g, x + 1, y, e);
    } else if e in b {
      StepContents(g, x - 1, y, e);
    } else if e in c {
      StepContents(g, x, y - 1, e);
    } else {
      StepContents(g, x, y + 1, e);
    }
  }

  /** The four candidate moves `adj` concatenates. */
  function Moves(g: Grid, x: int, y: int): seq<(int, Cell)>
    requires Valid(g)
  {
    Step(g, x + 1, y) + Step(g, x - 1, y) + Step(g, x, y - 1) + Step(g, x, y + 1)
  }

  lemma AdjMoves(g: Grid, id: int)
    requires Valid(g) && g.cols > 0
    ensures Adj(g, id).value == Moves(g, Coords(g, id).value.0, Coords(g, id).value.1)
  {
  }

  /** The node ids of a list of moves. */
  function Ids(s: seq<(int, Cell)>): seq<int>
  {
    if s == [] then [] else [s[0].0] + Ids(s[1..])
  }

  lemma {:induction false} IdsAppend(a: seq<(int, Cell)>, b: seq<(int, Cell)>)
    ensures Ids(a + b) == Ids(a) + Ids(b)
  {
    if a == [] {
      assert a + b == b;
    } else {
      assert (a + b)[0] == a[0];
      assert (a + b)[1..] == a[1..] + b;
      IdsAppend(a[1..], b);
    }
  }

  /** The id one candidate move contributes: `k` when the target is inside. */
  lemma StepIds(g: Grid, nx: int, ny: int, k: int)
    requires Valid(g) && NodeId(g, nx, ny) == k
    ensures Ids(Step(g, nx, ny)) == if InBounds(g, nx, ny) then [k] else []
  {
  }

  /** The ids of the four candidate moves from `(x, y)`, whose own id is
      `k`: right, left, up, down, each when it lies inside the grid. */
  lemma MovesIds(g: Grid, x: int, y: int, k: int)
    requires Valid(g) && 0 <= x < g.cols && NodeId(g, x, y) == k
    ensures Ids(Moves(g, x, y)) ==
      (if x + 1 < g.cols && 0 <= y < g.rows then [k + 1] else [])
      + (if 0 < x && 0 <= y < g.rows then [k - 1] else [])
      + (if 0 < y <= g.rows then [k - g.cols] else [])
      + (if -1 <= y < g.rows - 1 then [k + g.cols] else [])
  {
    assert NodeId(g, x, y - 1) == k - g.cols by {
      assert g.cols * (y - 1) == g.cols * y - g.cols;
    }
    assert NodeId(g, x, y + 1) == k + g.cols by {
      assert g.cols * (y + 1) == g.cols * y + g.cols;
    }
    StepIds(g, x + 1, y, k + 1);
    StepIds(g, x - 1, y, k - 1);
    StepIds(g, x, y - 1, k - g.cols);
    StepIds(g, x, y + 1, k + g.cols);
    MovesSplit(g, x, y);
  }

  lemma MovesSplit(g: Grid, x: int, y: int)
    requires Valid(g)
    ensures Ids(Moves(g, x, y)) ==
      Ids(Step(g, x + 1, y)) + Ids(Step(g, x - 1, y)) + Ids(Step(g, x, y - 1)) + Ids(Step(g, x, y + 1))
  {
    var a, b, c, d := Step(g, x + 1, y), Step(g, x - 1, y), Step(g, x, y - 1), Step(g, x, y + 1);
    IdsAppend(a, b);
    IdsAppend(a + b, c);
    IdsAppend(a + b + c, d);
  }

  /** For every node `adj` lists, in the order right, left, up, down, exactly
      those of its four neighbours that lie inside the grid, each with the
      cell stored at the neighbour's flat id. */
  lemma AdjOrder(g: Grid, id: int)
    requires Valid(g) && g.cols > 0
    ensures var (x, y) := Coords(g, id).value;
      Ids(Adj(g, id).value) ==
        (if x + 1 < g.cols && 0 <= y < g.rows then [id + 1] else [])
        + (if 0 < x && 0 <= y < g.rows then [id - 1] else [])
        + (if 0 < y <= g.rows then [id - g.cols] else [])
        + (if -1 <= y < g.rows - 1 then [id + g.cols] else [])
    ensures forall e :: e in Adj(g, id).value ==> 0 <= e.0 < |g.cells| && e.1 == g.cells[e.0]
  {
    NodeIdOfCoords(g, id);
    AdjMoves(g, id);
    MovesIds(g, Coords(g, id).value.0, Coords(g, id).value.1, id);
    AdjCells(g, id);
  }

  lemma AdjCells(g: Grid, id: int)
    requires Valid(g) && g.cols > 0
    ensures forall e :: e in Adj(g, id).value ==> 0 <= e.0 < |g.cells| && e.1 == g.cells[e.0]
  {
    forall e | e in Adj(g, id).value
      ensures 0 <= e.0 < |g.cells| && e.1 == g.cells[e.0]
    {
      AdjSound(g, id, e);
    }
  }

  lemma MovesComplete(g: Grid, x: int, y: int, nx: int, ny: int)
    requires Valid(g) && InBounds(g, nx, ny) && Abs(nx - x) + Abs(ny - y) == 1
    ensures (NodeId(g, nx, ny), Value(g, nx, ny).value) in Moves(g, x, y)
  {
    var e := (NodeId(g, nx, ny), Value(g, nx, ny).value);
    var a, b, c, d := Step(g, x + 1, y), Step(g, x - 1, y), Step(g, x, y - 1), Step(g, x, y + 1);
    if nx == x + 1 {
      StepContents(g, x + 1, y, e);
      assert e in a;
    } else if nx == x - 1 {
      StepContents(g, x - 1, y, e);
      assert e in b;
    } else if ny == y - 1 {
      StepContents(g, x, y - 1, e);
      assert e in c;
    } else {
      StepContents(g, x, y + 1, e);
      assert e in d;
    }
    assert e in a + b + c + d;
  }

  /** Every in-bounds cell one step away from the node is listed by `adj`
      with that cell's value. */
  lemma AdjComplete(g: Grid, id: int, nx: int, ny: int)
    requires Valid(g) && g.cols > 0
    requires InBounds(g, nx, ny)
    requires Abs(nx - Coords(g, id).value.0) + Abs(ny - Coords(g, id).value.1) == 1
    ensures (NodeId(g, nx, ny), Value(g, nx, ny).value) in Adj(g, id).value
  {
    AdjMoves(g, id);
    MovesComplete(g, Coords(g, id).value.0, Coords(g, id).value.1, nx, ny);
  }

  /** Python's `lst[i] = v`: negative indices count from the end, so element
      `j` is the one written exactly when `i` names it as `j` or as `j - len`. */
  function PySet<T>(s: seq<T>, i: int, v: T): (r: Result<seq<T>>)
    ensures r.Success? <==> -|s| <= i < |s|
    ensures r.Success? ==> |r.value| == |s|
    ensures r.Success? ==> forall j :: 0 <= j < |s| ==> r.value[j] == (if i == j || i == j - |s| then v else s[j])
  {
    if 0 <= i < |s| then Success(s[i := v])
    else if -|s| <= i < 0 then Success(s[i + |s| := v])
    else Failure(IndexError)
  }

  /** The loop of `add_vline` from row `y` up to `ymax`. */
  function VLineFrom(g: Grid, x: int, y: int, ymax: int, val: int): (r: Result<Grid>)
    decreases ymax + 1 - y
    ensures r.Success? ==> r.value.rows == g.rows && r.value.cols == g.cols && |r.value.cells| == |g.cells|
  {
    if y > ymax then Success(g)
    else
      var cells :- PySet(g.cells, NodeId(g, x, y), Val(val));
      VLineFrom(g.(cells := cells), x, y + 1, ymax, val)
  }

  /** `add_vline(x, ymin, ymax, val=1)`. */
  function AddVLine(g: Grid, x: int, ymin: int, ymax: int, val: int := 1): Result<Grid>
  {
    VLineFrom(g, x, ymin, ymax, val)
  }

  lemma {:induction false} VLineFromCells(g: Grid, x: int, y: int, ymax: int, val: int)
    requires Valid(g) && 0 <= x < g.cols && 0 <= y && ymax < g.rows
    ensures VLineFrom(g, x, y, ymax, val).Success?
    ensures Valid(VLineFrom(g, x, y, ymax, val).value)
    ensures forall i :: 0 <= i < |g.cells| ==>
      VLineFrom(g, x, y, ymax, val).value.cells[i] ==
        (if i % g.cols == x && y <= i / g.cols <= ymax then Val(val) else g.cells[i])
    decreases ymax + 1 - y
  {
    if y <= ymax {
      FlatIndexInRange(g, x, y);
      var id := NodeId(g, x, y);
      var g' := g.(cells := g.cells[id := Val(val)]);
      VLineFromCells(g', x, y + 1, ymax, val);
      AffineDivMod(x, g.cols, y);
      forall i | 0 <= i < |g.cells| && i % g.cols == x && i / g.cols == y
        ensures i == id
      {
        assert i == g.cols * (i / g.cols) + i % g.cols;
      }
    }
  }

  /** `add_vline` on a column of the grid and rows inside it sets exactly the
      cells (x, y), ymin <= y <= ymax, to `val`; nothing else changes. */
  lemma AddVLineSetsColumn(g: Grid, x: int, ymin: int, ymax: int, val: int)
    requires Valid(g) && 0 <= x < g.cols && 0 <= ymin && ymax < g.rows
    ensures AddVLine(g, x, ymin, ymax, val).Success?
    ensures var g' := AddVLine(g, x, ymin, ymax, val).value;
      && Valid(g') && g'.rows == g.rows && g'.cols == g.cols
      && forall x', y' :: InBounds(g, x', y') ==>
           Value(g', x', y') == (if x' == x && ymin <= y' <= ymax then Some(Val(val)) else Value(g, x', y'))
  {
    VLineFromCells(g, x, ymin, ymax, val);
    var g' := AddVLine(g, x, ymin, ymax, val).value;
    forall x', y' | InBounds(g, x', y')
      ensures Value(g', x', y') == (if x' == x && ymin <= y' <= ymax then Some(Val(val)) else Value(g, x', y'))
    {
      FlatIndexInRange(g, x', y');
      AffineDivMod(x', g.cols, y');
    }
  }

  /** `add_path`: marks every listed flat index with `'x'`. */
  function AddPath(g: Grid, path: seq<int>): (r: Result<Grid>)
    ensures r.Success? <==> forall i :: 0 <= i < |path| ==> -|g.cells| <= path[i] < |g.cells|
    ensures r.Success? ==> r.value.rows == g.rows && r.value.cols == g.cols && |r.value.cells| == |g.cells|
    decreases |path|
  {
    if path == [] then Success(g)
    else
      var cells :- PySet(g.cells, path[0], Mark);
      AddPath(g.(cells := cells), path[1..])
  }

  /** After `add_path` a cell holds `'x'` exactly when its index, or its
      negative Python alias, is on the path; the other cells are unchanged. */
  lemma {:induction false} AddPathMarks(g: Grid, path: seq<int>)
    requires AddPath(g, path).Success?
    ensures forall k {:trigger AddPath(g, path).value.cells[k]} :: 0 <= k < |g.cells| ==>
      AddPath(g, path).value.cells[k] == (if k in path || k - |g.cells| in path then Mark else g.cells[k])
    decreases |path|
  {
    if path != [] {
      var cells := PySet(g.cells, path[0], Mark).value;
      assert AddPath(g, path) == AddPath(g.(cells := cells), path[1..]);
      AddPathMarks(g.(cells := cells), path[1..]);
      assert forall k :: k in path <==> k == path[0] || k in path[1..];
    }
  }

  /** How `to_string` renders one cell: 0 as '-', anything else as `str(val)`. */
  function Render(c: Cell): string
  {
    match c
    case Val(n) => if n == 0 then "-" else IntToString(n)
    case Mark => "x"
  }

  /** Row `y` from column `x` on. */
  function RowFrom(g: Grid, y: int, x: int): string
    requires Valid(g) && 0 <= y < g.rows && 0 <= x
    decreases g.cols - x
  {
    if x >= g.cols then ""
    else Render(Value(g, x, y).value) + RowFrom(g, y, x + 1)
  }

  function Line(g: Grid, y: int): string
    requires Valid(g) && 0 <= y < g.rows
  {
    RowFrom(g, y, 0)
  }

  /** `to_string`: for each row, its rendered cells and then '\n'. */
  function ToString(g: Grid): string
    requires Valid(g)
  {
    Unlines(seq(if g.rows > 0 then g.rows else 0, y requires 0 <= y < g.rows => Line(g, y)))
  }

  lemma {:induction false} RowHasNoNewline(g: Grid, y: int, x: int)
    requires Valid(g) && 0 <= y < g.rows && 0 <= x
    ensures '\n' !in RowFrom(g, y, x)
    decreases g.cols - x
  {
    if x < g.cols {
      RowHasNoNewline(g, y, x + 1);
      match Value(g, x, y).value
      case Val(n) => if n != 0 { NoNewlineInInt(n); }
      case Mark =>
    }
  }

  /** `to_string` produces one line per row, each terminated by '\n', and
      line y lists the rendered cells of row y left to right. */
  lemma ToStringLines(g: Grid)
    requires Valid(g) && g.rows >= 0
    ensures var pieces := SplitOn(ToString(g), '\n');
      && |pieces| == g.rows + 1 && pieces[g.rows] == ""
      && forall y :: 0 <= y < g.rows ==> pieces[y] == Line(g, y)
  {
    var ls := seq(g.rows, y requires 0 <= y < g.rows => Line(g, y));
    forall i | 0 <= i < |ls|
      ensures '\n' !in ls[i]
    {
      RowHasNoNewline(g, i, 0);
    }
    SplitUnlines(ls);
  }
}
