/** Pure specification of the bounded, non-wrapping Game of Life with rule B3/S23.
    A grid of side n is a flat sequence of n * n cells stored row-major: cell (x, y)
    lives at index x * n + y. Only interior cells (1 <= x, y <= n - 2) are ever
    simulated; the outermost ring keeps whatever it held. */
module LifeRules {

  /** The side of the square grid. The program fixes it at 600; the model keeps it
      symbolic, with the least value for which an interior exists. */
  type Side = n: nat | n >= 3 witness 3

  /** Colours of the picture the engine keeps of the grid: a freshly created image is
      transparent, a live cell is painted white and a dead one black. */
  datatype Colour = Transparent | Black | White

  predicate InGrid(n: Side, x: int, y: int) {
    0 <= x < n && 0 <= y < n
  }

  /** A cell off the outermost ring: the only cells the simulation reads around and writes. */
  predicate Interior(n: Side, x: int, y: int) {
    1 <= x <= n - 2 && 1 <= y <= n - 2
  }

  /** Flat index of the first cell of row x: the x rows before it hold n cells each.
      Written as repeated addition; RowStartIsProduct relates it to x * n. */
  function RowStart(n: Side, x: nat): nat {
    if x == 0 then 0 else RowStart(n, x - 1) + n
  }

  /** The row of flat index i, by repeated subtraction of a row's width. */
  function Row(n: Side, i: nat): nat {
    if i < n then 0 else Row(n, i - n) + 1
  }

  /** The column of flat index i. */
  function Col(n: Side, i: nat): nat {
    if i < n then i else Col(n, i - n)
  }

  /** Row-major flat index of cell (x, y). It stays inside the n * n buffer, and the
      cell can be read back from it, so distinct cells never share an index. */
  function Index(n: Side, x: int, y: int): (i: nat)
    requires InGrid(n, x, y)
    ensures i < n * n
    ensures Row(n, i) == x && Col(n, i) == y
  {
    RowStartBound(n, x);
    RowColOfIndex(n, x, y);
    RowStart(n, x) + y
  }

  /** The flat index is the program's `x * n + y`. */
  lemma IndexIsProduct(n: Side, x: int, y: int)
    requires InGrid(n, x, y)
    ensures Index(n, x, y) == x * n + y
  {
    RowStartIsProduct(n, x);
  }

  /** Two cells share a flat index exactly when they are the same cell. */
  lemma IndexInjective(n: Side, x: int, y: int, p: int, q: int)
    requires InGrid(n, x, y) && InGrid(n, p, q)
    ensures Index(n, x, y) == Index(n, p, q) <==> x == p && y == q
  {
  }

  lemma {:induction false} RowStartIsProduct(n: Side, x: nat)
    ensures RowStart(n, x) == x * n
  {
    if x > 0 {
      RowStartIsProduct(n, x - 1);
      assert (x - 1) * n + n == x * n;
    }
  }

  lemma {:induction false} RowStartMonotone(n: Side, x: nat, x': nat)
    requires x <= x'
    ensures RowStart(n, x) <= RowStart(n, x')
  {
    if x < x' {
      RowStartMonotone(n, x, x' - 1);
    }
  }

  /** Every row, the last one included, ends inside the buffer. */
  lemma RowStartBound(n: Side, x: nat)
    requires x < n
    ensures RowStart(n, x) + n <= n * n
  {
    RowStartMonotone(n, x + 1, n);
    RowStartIsProduct(n, n);
  }

  lemma {:induction false} RowColOfIndex(n: Side, x: nat, y: int)
    requires 0 <= y < n
    ensures Row(n, RowStart(n, x) + y) == x && Col(n, RowStart(n, x) + y) == y
  {
    if x > 0 {
      RowColOfIndex(n, x - 1, y);
    }
  }

  /** Row and column of a flat index inside the buffer are a cell of the grid, and
      index it back. */
  lemma {:induction false} IndexOfRowCol(n: Side, i: nat)
    requires i < n * n
    ensures Row(n, i) < n && Col(n, i) < n && RowStart(n, Row(n, i)) + Col(n, i) == i
  {
    RowColSplit(n, i);
    if Row(n, i) >= n {
      RowStartMonotone(n, n, Row(n, i));
      RowStartIsProduct(n, n);
    }
  }

  lemma {:induction false} RowColSplit(n: Side, i: nat)
    ensures Col(n, i) < n && RowStart(n, Row(n, i)) + Col(n, i) == i
  {
    if i >= n {
      RowColSplit(n, i - n);
    }
  }

  /** The cell stored at flat index i: the inverse of Index. */
  function Coords(n: Side, i: int): (c: (int, int))
    requires 0 <= i < n * n
    ensures InGrid(n, c.0, c.1) && Index(n, c.0, c.1) == i
  {
    IndexOfRowCol(n, i);
    (Row(n, i), Col(n, i))
  }

  /** The value a buffer holds for cell (x, y). */
  function At<T>(n: Side, g: seq<T>, x: int, y: int): T
    requires |g| == n * n && InGrid(n, x, y)
  {
    g[Index(n, x, y)]
  }

  /** Two buffers that agree on every cell are equal. */
  lemma GridExtensionality(n: Side, a: seq<bool>, b: seq<bool>)
    requires |a| == n * n && |b| == n * n
    requires forall x, y {:trigger At(n, a, x, y)} :: InGrid(n, x, y) ==> At(n, a, x, y) == At(n, b, x, y)
    ensures a == b
  {
    forall i | 0 <= i < n * n
      ensures a[i] == b[i]
    {
      var c := Coords(n, i);
      assert At(n, a, c.0, c.1) == At(n, b, c.0, c.1);
    }
  }

  function Count(alive: bool): nat {
    if alive then 1 else 0
  }

  /** The number of live cells among the eight Moore neighbours of an interior cell. */
  function NeighborCount(n: Side, g: seq<bool>, x: int, y: int): (k: nat)
    requires |g| == n * n && Interior(n, x, y)
    ensures k <= 8
  {
    Count(At(n, g, x - 1, y - 1)) + Count(At(n, g, x - 1, y)) + Count(At(n, g, x - 1, y + 1)) +
    Count(At(n, g, x, y - 1)) + Count(At(n, g, x, y + 1)) +
    Count(At(n, g, x + 1, y - 1)) + Count(At(n, g, x + 1, y)) + Count(At(n, g, x + 1, y + 1))
  }

  /** The neighbour count ignores the state of the cell itself. */
  lemma NeighborCountIgnoresCentre(n: Side, g: seq<bool>, x: int, y: int, v: bool)
    requires |g| == n * n && Interior(n, x, y)
    ensures NeighborCount(n, g[Index(n, x, y) := v], x, y) == NeighborCount(n, g, x, y)
  {
  }

  /** The life rule: a live cell survives with two or three live neighbours, a dead cell
      is born with exactly three, every other cell is dead in the next generation. */
  function Rule(alive: bool, neighbors: int): (next: bool)
    ensures next <==> neighbors == 3 || (alive && neighbors == 2)
  {
    if alive then
      !(neighbors < 2 || neighbors > 3)
    else
      neighbors == 3
  }

  /** The next state of interior cell (x, y) of grid g. */
  function LifeCell(n: Side, g: seq<bool>, x: int, y: int): bool
    requires |g| == n * n && Interior(n, x, y)
  {
    Rule(At(n, g, x, y), NeighborCount(n, g, x, y))
  }

  /** The contents a write buffer w holds once one generation has been computed from the
      read buffer g: every interior cell follows the rule applied to g, and the border
      keeps what w held. */
  function Advance(n: Side, g: seq<bool>, w: seq<bool>): (r: seq<bool>)
    requires |g| == n * n && |w| == n * n
    ensures |r| == n * n
    ensures forall x, y {:trigger At(n, r, x, y)} :: Interior(n, x, y) ==> At(n, r, x, y) == LifeCell(n, g, x, y)
    ensures forall x, y {:trigger At(n, r, x, y)} :: InGrid(n, x, y) && !Interior(n, x, y) ==> At(n, r, x, y) == At(n, w, x, y)
  {
    seq(n * n, i requires 0 <= i < n * n =>
      var c := Coords(n, i);
      if Interior(n, c.0, c.1) then LifeCell(n, g, c.0, c.1) else w[i])
  }

  /** A grid whose outermost ring is all dead. */
  ghost predicate DeadBorder(n: Side, g: seq<bool>)
    requires |g| == n * n
  {
    forall x, y {:trigger At(n, g, x, y)} :: InGrid(n, x, y) && !Interior(n, x, y) ==> !At(n, g, x, y)
  }

  /** One generation of grid g on its own: the border is kept. */
  function Next(n: Side, g: seq<bool>): (r: seq<bool>)
    requires |g| == n * n
    ensures |r| == n * n
  {
    Advance(n, g, g)
  }

  /** When both buffers have a dead border, what lands in the write buffer is exactly the
      next generation of the read buffer, whatever else the write buffer held. */
  lemma AdvanceIsNext(n: Side, g: seq<bool>, w: seq<bool>)
    requires |g| == n * n && |w| == n * n
    requires DeadBorder(n, g) && DeadBorder(n, w)
    ensures Advance(n, g, w) == Next(n, g)
    ensures DeadBorder(n, Next(n, g))
  {
    GridExtensionality(n, Advance(n, g, w), Next(n, g));
  }

  /** Grid g after k generations. */
  function Generations(n: Side, g: seq<bool>, k: nat): (r: seq<bool>)
    requires |g| == n * n
    ensures |r| == n * n
  {
    if k == 0 then g else Next(n, Generations(n, g, k - 1))
  }

  /** However many generations pass, no border cell changes. */
  lemma {:induction false} GenerationsKeepBorder(n: Side, g: seq<bool>, k: nat)
    requires |g| == n * n
    ensures forall x, y {:trigger At(n, Generations(n, g, k), x, y)} :: InGrid(n, x, y) && !Interior(n, x, y) ==>
      At(n, Generations(n, g, k), x, y) == At(n, g, x, y)
  {
    if k > 0 {
      GenerationsKeepBorder(n, g, k - 1);
    }
  }

  /** The buffer Init leaves behind: each interior cell whose seed is set becomes alive,
      every other cell keeps what g held. */
  function Seeded(n: Side, g: seq<bool>, seed: seq<bool>): (r: seq<bool>)
    requires |g| == n * n && |seed| == n * n
    ensures |r| == n * n
    ensures forall x, y {:trigger At(n, r, x, y)} :: InGrid(n, x, y) ==>
      At(n, r, x, y) == ((Interior(n, x, y) && At(n, seed, x, y)) || At(n, g, x, y))
  {
    seq(n * n, i requires 0 <= i < n * n =>
      var c := Coords(n, i);
      if Interior(n, c.0, c.1) && seed[i] then true else g[i])
  }

  /** The all-dead grid a fresh buffer holds. */
  function Empty(n: Side): (r: seq<bool>)
    ensures |r| == n * n
    ensures forall x, y {:trigger At(n, r, x, y)} :: InGrid(n, x, y) ==> !At(n, r, x, y)
  {
    seq(n * n, _ => false)
  }

  /** Seeding never touches the border, so a dead border stays dead. */
  lemma SeededKeepsBorder(n: Side, g: seq<bool>, seed: seq<bool>)
    requires |g| == n * n && |seed| == n * n
    ensures forall x, y {:trigger At(n, Seeded(n, g, seed), x, y)} :: InGrid(n, x, y) && !Interior(n, x, y) ==>
      At(n, Seeded(n, g, seed), x, y) == At(n, g, x, y)
    ensures DeadBorder(n, g) ==> DeadBorder(n, Seeded(n, g, seed))
  {
  }

  /** Seeding an empty buffer gives a dead border and an interior that is exactly the seed. */
  lemma SeededEmpty(n: Side, seed: seq<bool>)
    requires |seed| == n * n
    ensures DeadBorder(n, Seeded(n, Empty(n), seed))
    ensures forall x, y {:trigger At(n, Seeded(n, Empty(n), seed), x, y)} :: Interior(n, x, y) ==> At(n, Seeded(n, Empty(n), seed), x, y) == At(n, seed, x, y)
  {
  }

  function Paint(alive: bool): Colour {
    if alive then White else Black
  }

  /** The image Init leaves behind: all black but the white interior cells whose seed is set. */
  function SeedImage(n: Side, seed: seq<bool>): (r: seq<Colour>)
    requires |seed| == n * n
    ensures |r| == n * n
    ensures forall x, y {:trigger At(n, r, x, y)} :: InGrid(n, x, y) ==>
      At(n, r, x, y) == (if Interior(n, x, y) && At(n, seed, x, y) then White else Black)
  {
    seq(n * n, i requires 0 <= i < n * n =>
      var c := Coords(n, i);
      if Interior(n, c.0, c.1) && seed[i] then White else Black)
  }

  /** The image shows grid g: each interior pixel is white exactly when its cell is alive. */
  ghost predicate Mirrors(n: Side, img: seq<Colour>, g: seq<bool>)
    requires |img| == n * n && |g| == n * n
  {
    forall x, y {:trigger At(n, img, x, y)} :: Interior(n, x, y) ==> At(n, img, x, y) == Paint(At(n, g, x, y))
  }

  /** After Init from empty buffers, the image shows the seeded buffer. */
  lemma SeedImageMirrors(n: Side, seed: seq<bool>)
    requires |seed| == n * n
    ensures Mirrors(n, SeedImage(n, seed), Seeded(n, Empty(n), seed))
  {
  }

  /** The pixel Update leaves for interior cell (x, y): black where a live cell dies,
      white where a dead cell is born, untouched otherwise. */
  function RepaintPixel(n: Side, img: seq<Colour>, g: seq<bool>, x: int, y: int): Colour
    requires |img| == n * n && |g| == n * n && Interior(n, x, y)
  {
    var was, now := At(n, g, x, y), LifeCell(n, g, x, y);
    if was && !now then Black
    else if !was && now then White
    else At(n, img, x, y)
  }

  /** The image after one generation computed from g. A pixel changes only at an
      interior cell whose state changed, and then takes the colour of the new state. */
  function Repaint(n: Side, img: seq<Colour>, g: seq<bool>): (r: seq<Colour>)
    requires |img| == n * n && |g| == n * n
    ensures |r| == n * n
    ensures forall x, y {:trigger At(n, r, x, y)} :: InGrid(n, x, y) && At(n, r, x, y) != At(n, img, x, y) ==>
      Interior(n, x, y) && LifeCell(n, g, x, y) != At(n, g, x, y) &&
      At(n, r, x, y) == Paint(LifeCell(n, g, x, y))
    ensures forall x, y {:trigger At(n, r, x, y)} :: Interior(n, x, y) ==> At(n, r, x, y) == RepaintPixel(n, img, g, x, y)
  {
    seq(n * n, i requires 0 <= i < n * n =>
      var c := Coords(n, i);
      if Interior(n, c.0, c.1) then RepaintPixel(n, img, g, c.0, c.1) else img[i])
  }

  /** Patching only the cells that changed keeps the image faithful: if it showed the
      read buffer, it shows the freshly written one. */
  lemma RepaintKeepsMirror(n: Side, img: seq<Colour>, g: seq<bool>, w: seq<bool>)
    requires |img| == n * n && |g| == n * n && |w| == n * n
    requires Mirrors(n, img, g)
    ensures Mirrors(n, Repaint(n, img, g), Advance(n, g, w))
  {
    forall x, y | Interior(n, x, y)
      ensures At(n, Repaint(n, img, g), x, y) == Paint(At(n, Advance(n, g, w), x, y))
    {
      assert At(n, img, x, y) == Paint(At(n, g, x, y));
    }
  }

  /** A 2 x 2 block whose corner is (a, b). */
  predicate InBlock(a: int, b: int, x: int, y: int) {
    a <= x <= a + 1 && b <= y <= b + 1
  }

  /** A board holding only the 2 x 2 block with corner (a, b). */
  function Block(n: Side, a: int, b: int): (r: seq<bool>)
    ensures |r| == n * n
    ensures forall x, y {:trigger At(n, r, x, y)} :: InGrid(n, x, y) ==> At(n, r, x, y) == InBlock(a, b, x, y)
  {
    seq(n * n, i requires 0 <= i < n * n => var c := Coords(n, i); InBlock(a, b, c.0, c.1))
  }

  /** Still life: a 2 x 2 block on an otherwise empty board is its own next generation
      (each of its cells has three live neighbours, each dead cell around it at most
      two). As border cells never change, this holds wherever the block lies. */
  lemma BlockIsStill(n: Side, a: int, b: int)
    ensures Next(n, Block(n, a, b)) == Block(n, a, b)
  {
  }

  /** A lone 2 x 2 block stays unchanged however many generations pass. */
  lemma {:induction false} BlockStaysStill(n: Side, a: int, b: int, k: nat)
    ensures Generations(n, Block(n, a, b), k) == Block(n, a, b)
  {
    if k > 0 {
      BlockStaysStill(n, a, b, k - 1);
      BlockIsStill(n, a, b);
    }
  }

  /** A blinker lying along the first coordinate: (a, b), (a + 1, b), (a + 2, b). */
  predicate AlongX(a: int, b: int, x: int, y: int) {
    y == b && a <= x <= a + 2
  }

  /** The same blinker turned about its middle cell (a + 1, b). */
  predicate AlongY(a: int, b: int, x: int, y: int) {
    x == a + 1 && b - 1 <= y <= b + 1
  }

  /** Where both phases of the blinker fit in the interior. */
  predicate BlinkerFits(n: Side, a: int, b: int) {
    Interior(n, a, b - 1) && Interior(n, a + 2, b + 1)
  }

  /** A board holding only the blinker in its first phase. */
  function BlinkerX(n: Side, a: int, b: int): (r: seq<bool>)
    ensures |r| == n * n
    ensures forall x, y {:trigger At(n, r, x, y)} :: InGrid(n, x, y) ==> At(n, r, x, y) == AlongX(a, b, x, y)
  {
    seq(n * n, i requires 0 <= i < n * n => var c := Coords(n, i); AlongX(a, b, c.0, c.1))
  }

  /** A board holding only the blinker in its second phase. */
  function BlinkerY(n: Side, a: int, b: int): (r: seq<bool>)
    ensures |r| == n * n
    ensures forall x, y {:trigger At(n, r, x, y)} :: InGrid(n, x, y) ==> At(n, r, x, y) == AlongY(a, b, x, y)
  {
    seq(n * n, i requires 0 <= i < n * n => var c := Coords(n, i); AlongY(a, b, c.0, c.1))
  }

  /** Oscillator: the blinker turns from one phase into the other ... */
  lemma BlinkerTurns(n: Side, a: int, b: int)
    requires BlinkerFits(n, a, b)
    ensures Next(n, BlinkerX(n, a, b)) == BlinkerY(n, a, b)
  {
  }

  /** ... and back. */
  lemma BlinkerTurnsBack(n: Side, a: int, b: int)
    requires BlinkerFits(n, a, b)
    ensures Next(n, BlinkerY(n, a, b)) == BlinkerX(n, a, b)
  {
  }

  /** The blinker has period two. */
  lemma BlinkerPeriodTwo(n: Side, a: int, b: int)
    requires BlinkerFits(n, a, b)
    ensures Generations(n, BlinkerX(n, a, b), 2) == BlinkerX(n, a, b)
  {
    BlinkerTurns(n, a, b);
    BlinkerTurnsBack(n, a, b);
    TwoSteps(n, BlinkerX(n, a, b), BlinkerY(n, a, b));
  }

  lemma TwoSteps(n: Side, g: seq<bool>, h: seq<bool>)
    requires |g| == n * n && Next(n, g) == h && Next(n, h) == g
    ensures Generations(n, g, 2) == g
  {
    assert Generations(n, g, 1) == h;
  }
}
