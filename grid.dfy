/**
 * The board of the game: a width-by-height torus of integer cells, the four
 * headings the snake can take, and the coordinate arithmetic of one move,
 * written with JavaScript's remainder operator.
 */
module Grid {

  /** A board position; on the board when 0 <= x < width and 0 <= y < height. */
  datatype Cell = Cell(x: int, y: int)

  /** A heading, given as the change of the head's coordinates per move. */
  datatype Dir = Dir(dx: int, dy: int)

  const Up: Dir := Dir(0, -1)
  const Down: Dir := Dir(0, 1)
  const Left: Dir := Dir(-1, 0)
  const Right: Dir := Dir(1, 0)

  /** The four unit headings the key table can produce. */
  predicate IsUnit(d: Dir) {
    d == Up || d == Down || d == Left || d == Right
  }

  function Reverse(d: Dir): (r: Dir) {
    Dir(-d.dx, -d.dy)
  }

  predicate InGrid(c: Cell, width: int, height: int) {
    0 <= c.x < width && 0 <= c.y < height
  }

  predicate AllInGrid(cells: seq<Cell>, width: int, height: int) {
    forall i :: 0 <= i < |cells| ==> InGrid(cells[i], width, height)
  }

  /** Euclid's division is unique: any quotient/remainder pair with the remainder in range is Dafny's. */
  lemma EuclidUnique(a: int, m: int, q: int, r: int)
    requires m > 0 && 0 <= r < m && a == q * m + r
    ensures a / m == q && a % m == r
  {
    var q', r' := a / m, a % m;
    assert a == q' * m + r' && 0 <= r' < m;
    assert (q - q') * m == r' - r;
    SmallMultipleIsZero(q - q', m);
  }

  /** A multiple of `m` strictly between `-m` and `m` is zero. */
  lemma SmallMultipleIsZero(k: int, m: int)
    requires m > 0 && -m < k * m < m
    ensures k == 0
  {
  }

  /**
   * JavaScript's remainder `a % m` for a positive modulus: the quotient is
   * rounded toward zero, so the result takes the sign of `a`. It agrees with
   * Dafny's Euclidean `%` on non-negative dividends and is off by `m` on
   * negative dividends that `m` does not divide.
   */
  function JsRem(a: int, m: int): (r: int)
    requires m > 0
    ensures a >= 0 ==> r == a % m && 0 <= r < m
    ensures a < 0 ==> -m < r <= 0
    ensures a < 0 ==> (r == 0 <==> a % m == 0)
    ensures a < 0 && r != 0 ==> r == a % m - m
  {
    if a >= 0 then a % m
    else
      var b := -a;
      var s := b % m;
      assert b == (b / m) * m + s;
      if s == 0 then
        EuclidUnique(a, m, -(b / m), 0);
        0
      else
        EuclidUnique(a, m, -(b / m) - 1, m - s);
        -s
  }

  /**
   * The cell the head moves to: each coordinate, plus the heading and the
   * board size, taken modulo the board size with JavaScript's `%`.
   */
  function NextHead(head: Cell, d: Dir, width: int, height: int): (r: Cell)
    requires width > 0 && height > 0
    ensures InGrid(head, width, height) && IsUnit(d) ==> InGrid(r, width, height)
  {
    Cell(JsRem(head.x + d.dx + width, width), JsRem(head.y + d.dy + height, height))
  }

  /** Reference definition of a one-cell step along an axis of `size` cells with wrap-around. */
  function Wrapped(v: int, size: int): (r: int) {
    if v == size then 0 else if v == -1 then size - 1 else v
  }

  lemma WrapAxis(v: int, delta: int, size: int)
    requires size > 0 && 0 <= v < size && -1 <= delta <= 1
    ensures JsRem(v + delta + size, size) == Wrapped(v + delta, size)
  {
    var s := v + delta;
    if s == size {
      EuclidUnique(s + size, size, 2, 0);
    } else if s == -1 {
      EuclidUnique(s + size, size, 0, size - 1);
    } else {
      EuclidUnique(s + size, size, 1, s);
    }
  }

  /**
   * On the board, a unit step moves the head by one cell and wraps around at
   * the edges: one past the last column or row is 0, one before 0 is the last.
   */
  lemma {:induction false} NextHeadWraps(head: Cell, d: Dir, width: int, height: int)
    requires width > 0 && height > 0 && InGrid(head, width, height) && IsUnit(d)
    ensures NextHead(head, d, width, height)
         == Cell(Wrapped(head.x + d.dx, width), Wrapped(head.y + d.dy, height))
  {
    WrapAxis(head.x, d.dx, width);
    WrapAxis(head.y, d.dy, height);
  }

  /** The four edge crossings of the torus. */
  lemma EdgesWrap(width: int, height: int, x: int, y: int)
    requires width > 0 && height > 0 && 0 <= x < width && 0 <= y < height
    ensures NextHead(Cell(width - 1, y), Right, width, height) == Cell(0, y)
    ensures NextHead(Cell(0, y), Left, width, height) == Cell(width - 1, y)
    ensures NextHead(Cell(x, height - 1), Down, width, height) == Cell(x, 0)
    ensures NextHead(Cell(x, 0), Up, width, height) == Cell(x, height - 1)
  {
    NextHeadWraps(Cell(width - 1, y), Right, width, height);
    NextHeadWraps(Cell(0, y), Left, width, height);
    NextHeadWraps(Cell(x, height - 1), Down, width, height);
    NextHeadWraps(Cell(x, 0), Up, width, height);
  }

  /** The cells of row `y` with x below `width`. */
  function RowCells(width: nat, y: int): (r: set<Cell>)
    ensures forall c :: c in r <==> 0 <= c.x < width && c.y == y
    ensures |r| == width
  {
    if width == 0 then {}
    else
      var rest := RowCells(width - 1, y);
      assert Cell(width - 1, y) !in rest;
      rest + {Cell(width - 1, y)}
  }

  /** Every cell of a width-by-height board. */
  function GridCells(width: nat, height: nat): (r: set<Cell>)
    ensures forall c :: c in r <==> InGrid(c, width, height)
    ensures |r| == width * height
  {
    if height == 0 then {}
    else
      var above := GridCells(width, height - 1);
      var row := RowCells(width, height - 1);
      assert above * row == {} by {
        forall c | c in row ensures c !in above { }
      }
      assert |above + row| == |above| + |row|;
      assert width * (height - 1) + width == width * height;
      above + row
  }

  /** The set of cells a sequence occupies; duplicates count once. */
  function Occupied(cells: seq<Cell>): (r: set<Cell>)
    ensures forall c :: c in r <==> c in cells
    ensures |r| <= |cells|
  {
    if cells == [] then {}
    else
      var rest := Occupied(cells[1..]);
      assert forall c :: c in cells <==> c == cells[0] || c in cells[1..];
      {cells[0]} + rest
  }

  /**
   * Pigeonhole: a sequence of on-board cells shorter than the board leaves
   * some cell of the board free.
   */
  lemma FreeCell(cells: seq<Cell>, width: nat, height: nat) returns (c: Cell)
    requires AllInGrid(cells, width, height) && |cells| < width * height
    ensures InGrid(c, width, height) && c !in cells
  {
    var all := GridCells(width, height);
    var taken := Occupied(cells);
    assert taken <= all by {
      forall t | t in taken ensures t in all {
        var i :| 0 <= i < |cells| && cells[i] == t;
      }
    }
    assert all == (all - taken) + taken;
    assert |all| == |all - taken| + |taken|;
    assert all - taken != {};
    c :| c in all - taken;
  }
}
