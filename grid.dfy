/** Integer board geometry used by the snake game: cells, unit steps and the
    column-by-column listing of free cells that food and obstacle placement draw from. */
module Grid {

  /** A board cell or a step between cells (Unity's Vector2Int). */
  datatype Vec = Vec(x: int, y: int)

  const Zero: Vec := Vec(0, 0)

  function Add(a: Vec, b: Vec): Vec {
    Vec(a.x + b.x, a.y + b.y)
  }

  /** k copies of a step (Vector2Int * int). */
  function Scale(v: Vec, k: int): Vec {
    Vec(v.x * k, v.y * k)
  }

  function Abs(n: int): nat {
    if n < 0 then -n else n
  }

  /** The four headings a snake can have. */
  datatype Direction = Up | Down | Left | Right

  /** Unit vector of a heading: Vector2Int.up is (0, 1), .right is (1, 0). */
  function Delta(d: Direction): Vec {
    match d
    case Up => Vec(0, 1)
    case Down => Vec(0, -1)
    case Left => Vec(-1, 0)
    case Right => Vec(1, 0)
  }

  function Opposite(d: Direction): (r: Direction)
    ensures r != d
  {
    match d
    case Up => Down
    case Down => Up
    case Left => Right
    case Right => Left
  }

  /** Two headings cancel out, as a vector sum, exactly when one is the reverse of the other. */
  lemma CancelIffOpposite(a: Direction, b: Direction)
    ensures Add(Delta(a), Delta(b)) == Zero <==> b == Opposite(a)
    ensures Add(Delta(a), Delta(b)) == Zero <==> a == Opposite(b)
  {
  }

  predicate InGrid(p: Vec, width: int, height: int) {
    0 <= p.x < width && 0 <= p.y < height
  }

  /** Orthogonal neighbours: one unit step apart. */
  predicate Adjacent(a: Vec, b: Vec) {
    Abs(a.x - b.x) + Abs(a.y - b.y) == 1
  }

  lemma StepIsAdjacent(p: Vec, d: Direction)
    ensures Adjacent(p, Add(p, Delta(d)))
  {
  }

  predicate Distinct(s: seq<Vec>) {
    forall i, j :: 0 <= i < j < |s| ==> s[i] != s[j]
  }

  /** Each cell of the sequence is a unit step away from the next one. */
  predicate Contiguous(s: seq<Vec>) {
    forall i :: 0 <= i < |s| - 1 ==> Adjacent(s[i], s[i + 1])
  }

  lemma DistinctConcat(a: seq<Vec>, b: seq<Vec>)
    requires Distinct(a) && Distinct(b)
    requires forall p :: p in a ==> p !in b
    ensures Distinct(a + b)
  {
    forall i, j | 0 <= i < j < |a + b|
      ensures (a + b)[i] != (a + b)[j]
    {
      if j >= |a| && i < |a| {
        assert (a + b)[i] in a;
        assert (a + b)[j] == b[j - |a|];
      }
    }
  }

  /** The cells (x, y), (x, y + 1), ..., (x, height - 1) that are not blocked, in that order:
      the inner loop of the free-cell scans. */
  function ColumnFree(x: int, y: int, height: int, blocked: set<Vec>): seq<Vec>
    decreases height - y
  {
    if y >= height then []
    else if Vec(x, y) in blocked then ColumnFree(x, y + 1, height, blocked)
    else [Vec(x, y)] + ColumnFree(x, y + 1, height, blocked)
  }

  /** A column listing holds each unblocked cell of the column from row y up, once. */
  lemma {:induction false} ColumnFreeSpec(x: int, y: int, height: int, blocked: set<Vec>)
    decreases height - y
    ensures forall p :: p in ColumnFree(x, y, height, blocked)
                    <==> p.x == x && y <= p.y < height && p !in blocked
    ensures Distinct(ColumnFree(x, y, height, blocked))
  {
    if y < height {
      ColumnFreeSpec(x, y + 1, height, blocked);
      if Vec(x, y) !in blocked {
        DistinctConcat([Vec(x, y)], ColumnFree(x, y + 1, height, blocked));
      }
    }
  }

  /** The unblocked cells of columns x .. width - 1, column by column. */
  function GridFree(x: int, width: int, height: int, blocked: set<Vec>): seq<Vec>
    decreases width - x
  {
    if x >= width then []
    else ColumnFree(x, 0, height, blocked) + GridFree(x + 1, width, height, blocked)
  }

  /** The listing of columns x and onwards holds each unblocked cell of those columns, once. */
  lemma {:induction false} GridFreeSpec(x: int, width: int, height: int, blocked: set<Vec>)
    decreases width - x
    ensures forall p :: p in GridFree(x, width, height, blocked)
                    <==> x <= p.x < width && 0 <= p.y < height && p !in blocked
    ensures Distinct(GridFree(x, width, height, blocked))
  {
    if x < width {
      ColumnFreeSpec(x, 0, height, blocked);
      GridFreeSpec(x + 1, width, height, blocked);
      DistinctConcat(ColumnFree(x, 0, height, blocked), GridFree(x + 1, width, height, blocked));
    }
  }

  /** Every board cell outside `blocked`, in the order of the nested scans
      `for x in 0..width { for y in 0..height { ... } }`. */
  function FreeCells(width: int, height: int, blocked: set<Vec>): seq<Vec> {
    GridFree(0, width, height, blocked)
  }

  /** The free-cell listing holds every board cell outside `blocked`, and each only once. */
  lemma FreeCellsSpec(width: int, height: int, blocked: set<Vec>)
    ensures forall p :: p in FreeCells(width, height, blocked)
                    <==> InGrid(p, width, height) && p !in blocked
    ensures Distinct(FreeCells(width, height, blocked))
  {
    GridFreeSpec(0, width, height, blocked);
  }

  /** The listing is empty exactly when every board cell is blocked. */
  lemma FreeCellsEmptyIffFull(width: int, height: int, blocked: set<Vec>)
    ensures |FreeCells(width, height, blocked)| == 0
        <==> forall p :: InGrid(p, width, height) ==> p in blocked
  {
    var r := FreeCells(width, height, blocked);
    FreeCellsSpec(width, height, blocked);
    if |r| != 0 {
      assert r[0] in r;
    }
  }

  /** The set of cells a sequence occupies (the source builds a HashSet from the list). */
  function Cells(s: seq<Vec>): set<Vec> {
    set p | p in s
  }
}
