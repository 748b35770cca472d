/**
 * The ground STRIPS vocabulary shared by the planning graph and the
 * air-cargo domain: expressions `Op(arg, ...)`, actions with positive and
 * negative preconditions and add and remove effects, and states as the
 * fluents known to be true and known to be false.
 */
module Strips {

  /** An expression `op(args...)`; a constant such as `C1` has no arguments. */
  datatype Expr = Expr(op: string, args: seq<Expr>)

  function Sym(name: string): Expr
  {
    Expr(name, [])
  }

  /** A ground action; its head expression names it, as in `Load(C1, P1, SFO)`. */
  datatype Action = Action(head: Expr, precondPos: seq<Expr>, precondNeg: seq<Expr>,
                           effectAdd: seq<Expr>, effectRem: seq<Expr>)
  {
    function Name(): string { head.op }
    function Args(): seq<Expr> { head.args }
  }

  /** A fluent state: the fluents that hold and the fluents that do not. */
  datatype State = State(pos: set<Expr>, neg: set<Expr>)

  /** The state decodes a true/false assignment to `fluents`: each fluent of
      the list is on exactly one side, and nothing else appears. */
  predicate Partition(s: State, fluents: set<Expr>)
  {
    s.pos !! s.neg && s.pos + s.neg == fluents
  }
}
