/**
 The Sudoku board as the solver sees it: 81 squares in row-major order, each
 empty or holding one digit, plus the flag that marks squares the solver filled.
 Also the board geometry (rows, columns, 3x3 boxes) and the Sudoku constraint.
 */
module Grid {

  datatype Option<T> = None | Some(value: T)

  /** A digit a square may hold. The input filter is meant to admit nothing else; the model assumes it does. */
  type Digit = d: int | 1 <= d <= 9 witness 1

  /** A square: its value and whether the solver (rather than the user) filled it. */
  datatype Cell = Cell(value: Option<Digit>, solved: bool)
  {
    predicate Filled() { value.Some? }
  }

  /** The square the solver leaves behind when it undoes a placement. */
  const Blank: Cell := Cell(None, false)

  /** The 9x9 board, flattened: square (r, c) is at index r * 9 + c. */
  type Board = g: seq<Cell> | |g| == 81 witness seq(81, _ => Cell(None, false))

  /** The smallest number of givens the validator accepts. */
  const MinClues: nat := 17

  /** The three kinds of group a square belongs to. */
  datatype Kind = RowGroup | ColGroup | BoxGroup

  function Row(k: int): int { k / 9 }
  function Col(k: int): int { k % 9 }

  /** Box numbering of the source: (r / 3) * 3 + c / 3. */
  function Box(k: int): int { Row(k) / 3 * 3 + Col(k) / 3 }

  /** The number of the group of the given kind that square k lies in. */
  function Group(kind: Kind, k: int): (grp: int)
    requires 0 <= k < 81
    ensures 0 <= grp < 9
  {
    match kind
    case RowGroup => Row(k)
    case ColGroup => Col(k)
    case BoxGroup => Box(k)
  }

  /** Two distinct squares sharing a row, a column or a box. */
  predicate Peers(p: int, q: int)
    requires 0 <= p < 81 && 0 <= q < 81
  {
    p != q &&
    (Group(RowGroup, p) == Group(RowGroup, q) ||
     Group(ColGroup, p) == Group(ColGroup, q) ||
     Group(BoxGroup, p) == Group(BoxGroup, q))
  }

  /** Squares p and q are peers holding the same digit. */
  ghost predicate Clash(g: Board, p: int, q: int)
    requires 0 <= p < 81 && 0 <= q < 81
  {
    Peers(p, q) && g[p].value.Some? && g[p].value == g[q].value
  }

  /** No two of the first n squares clash. */
  ghost predicate ConsistentUpTo(g: Board, n: int)
    requires 0 <= n <= 81
  {
    forall p, q :: 0 <= p < n && 0 <= q < n ==> !Clash(g, p, q)
  }

  /** The Sudoku constraint: no digit twice in any row, column or box. */
  ghost predicate Consistent(g: Board)
  {
    ConsistentUpTo(g, 81)
  }

  /** Number of filled squares among the first n: all n exactly when none of them is empty. */
  function CountFilled(g: Board, n: int): (c: nat)
    requires 0 <= n <= 81
    ensures c <= n
    ensures c == n <==> forall k :: 0 <= k < n ==> g[k].Filled()
  {
    if n == 0 then 0
    else CountFilled(g, n - 1) + (if g[n - 1].Filled() then 1 else 0)
  }

  function FilledCount(g: Board): nat
  {
    CountFilled(g, 81)
  }

  /** Every square holds a digit. */
  predicate Full(g: Board)
  {
    forall k :: 0 <= k < 81 ==> g[k].Filled()
  }

  /** Every empty square is unflagged, as after a reset or on a fresh board. */
  predicate Clean(g: Board)
  {
    forall k :: 0 <= k < 81 && !g[k].Filled() ==> !g[k].solved
  }
}
