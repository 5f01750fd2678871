/** The simulation engine: two flat buffers of n * n cells that take turns as the
    generation being read and the generation being written, a flag saying which is
    which, and a picture of the grid that is patched cell by cell as cells change. */
module LifeGame {
  import opened LifeRules

  /** Reads cell (x, y) of a buffer, stored at flat index x * n + y. */
  function GetAtIndex(buffer: array<bool>, n: Side, x: int, y: int): (alive: bool)
    reads buffer
    requires buffer.Length == n * n && InGrid(n, x, y)
    ensures alive == At(n, buffer[..], x, y)
  {
    IndexIsProduct(n, x, y);
    buffer[x * n + y]
  }

  /** Writes cell (x, y) of a buffer and nothing else. */
  method SetAtIndex(buffer: array<bool>, n: Side, x: int, y: int, value: bool)
    requires buffer.Length == n * n && InGrid(n, x, y)
    modifies buffer
    ensures buffer[..] == old(buffer[..])[Index(n, x, y) := value]
    ensures At(n, buffer[..], x, y) == value
    ensures forall p, q {:trigger At(n, buffer[..], p, q)} :: InGrid(n, p, q) && (p != x || q != y) ==>
      At(n, buffer[..], p, q) == At(n, old(buffer[..]), p, q)
  {
    IndexIsProduct(n, x, y);
    buffer[x * n + y] := value;
  }

  /** Sets pixel (x, y) of the picture, stored at the same flat index as cell (x, y). */
  method SetPixel(image: array<Colour>, n: Side, x: int, y: int, colour: Colour)
    requires image.Length == n * n && InGrid(n, x, y)
    modifies image
    ensures image[..] == old(image[..])[Index(n, x, y) := colour]
  {
    image[Index(n, x, y)] := colour;
  }

  /** Live neighbours of (x, y) in row offset i, over column offsets -1 .. e - 1 (the
      first e + 1 columns the inner neighbour loop visits); the centre is skipped. */
  ghost function RowScan(n: Side, g: seq<bool>, x: int, y: int, i: int, e: int): nat
    requires |g| == n * n && Interior(n, x, y) && -1 <= i <= 1 && -1 <= e <= 2
    decreases e + 1
  {
    if e == -1 then 0
    else RowScan(n, g, x, y, i, e - 1) + (if i == 0 && e - 1 == 0 then 0 else Count(At(n, g, x + i, y + e - 1)))
  }

  /** Live neighbours of (x, y) in row offsets -1 .. e - 1 (the rows the outer neighbour
      loop has finished). */
  ghost function SquareScan(n: Side, g: seq<bool>, x: int, y: int, e: int): nat
    requires |g| == n * n && Interior(n, x, y) && -1 <= e <= 2
    decreases e + 1
  {
    if e == -1 then 0 else SquareScan(n, g, x, y, e - 1) + RowScan(n, g, x, y, e - 1, 2)
  }

  /** The full scan of the 3 x 3 square, centre skipped, counts exactly the eight
      Moore neighbours. */
  lemma SquareScanIsNeighborCount(n: Side, g: seq<bool>, x: int, y: int)
    requires |g| == n * n && Interior(n, x, y)
    ensures SquareScan(n, g, x, y, 2) == NeighborCount(n, g, x, y)
  {
  }

  /** Counts the live Moore neighbours of interior cell (x, y) with a double loop over
      the offsets -1, 0, 1. */
  method GetNumLivingNeighbors(buffer: array<bool>, n: Side, x: int, y: int) returns (count: int)
    requires buffer.Length == n * n && Interior(n, x, y)
    ensures count == NeighborCount(n, buffer[..], x, y)
    ensures 0 <= count <= 8
  {
    count := 0;
    for i := -1 to 2
      invariant count == SquareScan(n, buffer[..], x, y, i)
    {
      for j := -1 to 2
        invariant count == SquareScan(n, buffer[..], x, y, i) + RowScan(n, buffer[..], x, y, i, j)
      {
        if !(i == 0 && j == 0) && GetAtIndex(buffer, n, x + i, y + j) {
          count := count + 1;
        }
      }
    }
    SquareScanIsNeighborCount(n, buffer[..], x, y);
  }

  /** Order of the interior sweeps (row x outer, column y inner): cell (p, q) is visited
      before the sweep reaches (x, y). */
  predicate Visited(x: int, y: int, p: int, q: int) {
    p < x || (p == x && q < y)
  }

  /** The grid a sweep over the interior has produced by the time it reaches (x, y): the
      visited interior cells hold their value in `done`, every other cell its value in
      `todo`. */
  ghost function Blend<T>(n: Side, done: seq<T>, todo: seq<T>, x: int, y: int): (r: seq<T>)
    requires |done| == n * n && |todo| == n * n
    ensures |r| == n * n
    ensures forall p, q {:trigger At(n, r, p, q)} :: InGrid(n, p, q) ==>
      At(n, r, p, q) == if Interior(n, p, q) && Visited(x, y, p, q) then At(n, done, p, q) else At(n, todo, p, q)
  {
    seq(n * n, i requires 0 <= i < n * n =>
      var c := Coords(n, i);
      if Interior(n, c.0, c.1) && Visited(x, y, c.0, c.1) then done[i] else todo[i])
  }

  /** Before the sweep starts nothing has been written. */
  lemma BlendStart<T>(n: Side, done: seq<T>, todo: seq<T>)
    requires |done| == n * n && |todo| == n * n
    ensures Blend(n, done, todo, 1, 1) == todo
  {
    var r := Blend(n, done, todo, 1, 1);
    forall i | 0 <= i < n * n
      ensures r[i] == todo[i]
    {
      var c := Coords(n, i);
      assert At(n, r, c.0, c.1) == At(n, todo, c.0, c.1);
    }
  }

  /** Visiting interior cell (x, y) writes its `done` value at its index and nothing else. */
  lemma BlendStep<T>(n: Side, done: seq<T>, todo: seq<T>, x: int, y: int)
    requires |done| == n * n && |todo| == n * n && Interior(n, x, y)
    ensures Blend(n, done, todo, x, y + 1) == Blend(n, done, todo, x, y)[Index(n, x, y) := At(n, done, x, y)]
    ensures At(n, done, x, y) == At(n, todo, x, y) ==> Blend(n, done, todo, x, y + 1) == Blend(n, done, todo, x, y)
  {
    var r, s := Blend(n, done, todo, x, y + 1), Blend(n, done, todo, x, y);
    var k := Index(n, x, y);
    forall i | 0 <= i < n * n
      ensures r[i] == s[k := done[k]][i]
    {
      var c := Coords(n, i);
      assert At(n, r, c.0, c.1) == r[i] && At(n, s, c.0, c.1) == s[i];
    }
  }

  /** The end of one interior row is the start of the next. */
  lemma BlendRow<T>(n: Side, done: seq<T>, todo: seq<T>, x: int)
    requires |done| == n * n && |todo| == n * n && 1 <= x <= n - 2
    ensures Blend(n, done, todo, x, n - 1) == Blend(n, done, todo, x + 1, 1)
  {
    var r, s := Blend(n, done, todo, x, n - 1), Blend(n, done, todo, x + 1, 1);
    forall i | 0 <= i < n * n
      ensures r[i] == s[i]
    {
      var c := Coords(n, i);
      assert At(n, r, c.0, c.1) == At(n, s, c.0, c.1);
    }
  }

  /** Once every interior row is done, the result is `done`, provided `done` keeps the
      border of `todo`. */
  lemma BlendEnd<T>(n: Side, done: seq<T>, todo: seq<T>)
    requires |done| == n * n && |todo| == n * n
    requires forall p, q {:trigger At(n, done, p, q)} :: InGrid(n, p, q) && !Interior(n, p, q) ==> At(n, done, p, q) == At(n, todo, p, q)
    ensures Blend(n, done, todo, n - 1, 1) == done
  {
    var r := Blend(n, done, todo, n - 1, 1);
    forall i | 0 <= i < n * n
      ensures r[i] == done[i]
    {
      var c := Coords(n, i);
      assert At(n, r, c.0, c.1) == At(n, done, c.0, c.1);
    }
  }

  /** One generation, in place: every interior cell of `current` gets the next state of
      the same cell of `previous`, the border of `current` is left as it was, and each
      pixel whose cell dies is painted black and each pixel whose cell is born white. */
  method UpdateInterior(previous: array<bool>, current: array<bool>, image: array<Colour>, n: Side)
    requires previous.Length == n * n && current.Length == n * n && image.Length == n * n
    requires previous != current
    modifies current, image
    ensures current[..] == Advance(n, previous[..], old(current[..]))
    ensures image[..] == Repaint(n, old(image[..]), previous[..])
  {
    ghost var g, w, img := previous[..], current[..], image[..];
    ghost var next, picture := Advance(n, g, w), Repaint(n, img, g);
    BlendStart(n, next, w);
    BlendStart(n, picture, img);
    for x := 1 to n - 1
      invariant current[..] == Blend(n, next, w, x, 1)
      invariant image[..] == Blend(n, picture, img, x, 1)
    {
      for y := 1 to n - 1
        invariant current[..] == Blend(n, next, w, x, y)
        invariant image[..] == Blend(n, picture, img, x, y)
      {
        BlendStep(n, next, w, x, y);
        BlendStep(n, picture, img, x, y);
        ghost var alive, lives := At(n, g, x, y), LifeCell(n, g, x, y);
        assert At(n, next, x, y) == lives;
        assert At(n, picture, x, y) == if alive && !lives then Black else if !alive && lives then White else At(n, img, x, y);
        var numNeighbors := GetNumLivingNeighbors(previous, n, x, y);
        if GetAtIndex(previous, n, x, y) {
          if numNeighbors < 2 || numNeighbors > 3 {
            SetAtIndex(current, n, x, y, false);
            SetPixel(image, n, x, y, Black);
          } else {
            SetAtIndex(current, n, x, y, true);
          }
        } else {
          if numNeighbors == 3 {
            SetAtIndex(current, n, x, y, true);
            SetPixel(image, n, x, y, White);
          } else {
            SetAtIndex(current, n, x, y, false);
          }
        }
      }
      BlendRow(n, next, w, x);
      BlendRow(n, picture, img, x);
    }
    BlendEnd(n, next, w);
    BlendEnd(n, picture, img);
  }

  class Game {
    const n: Side
    const buffer0: array<bool>
    const buffer1: array<bool>
    /** The buffer the last Update wrote; null before the first one. */
    var currentBuffer: array?<bool>
    /** The buffer the last Update read; null before the first one. */
    var previousBuffer: array?<bool>
    /** One colour per cell, indexed like the buffers. */
    const image: array<Colour>
    /** Whether buffer0 holds the last completed generation. */
    var isBuffer0: bool

    /** The buffer the next Update reads: the last completed generation. */
    ghost function Readable(): array<bool>
      reads this
    {
      if isBuffer0 then buffer0 else buffer1
    }

    /** The buffer the next Update writes. */
    ghost function Writable(): array<bool>
      reads this
    {
      if isBuffer0 then buffer1 else buffer0
    }

    /** Two distinct buffers of n * n cells whose border is dead, and the role pointers
        (once set) agree with the flag. */
    ghost predicate Valid()
      reads this, buffer0, buffer1
    {
      buffer0.Length == n * n && buffer1.Length == n * n && image.Length == n * n &&
      buffer0 != buffer1 &&
      DeadBorder(n, buffer0[..]) && DeadBorder(n, buffer1[..]) &&
      (currentBuffer == null <==> previousBuffer == null) &&
      (currentBuffer != null ==> currentBuffer == Readable() && previousBuffer == Writable())
    }

    /** A zero-valued game: both buffers dead, a transparent image, buffer1 readable. */
    constructor (n: Side)
      ensures Valid() && this.n == n
      ensures fresh(buffer0) && fresh(buffer1) && fresh(image)
      ensures buffer0[..] == Empty(n) && buffer1[..] == Empty(n)
      ensures forall i :: 0 <= i < image.Length ==> image[i] == Transparent
      ensures !isBuffer0 && currentBuffer == null && previousBuffer == null
    {
      this.n := n;
      buffer0 := new bool[n * n](_ => false);
      buffer1 := new bool[n * n](_ => false);
      image := new Colour[n * n](_ => Transparent);
      currentBuffer, previousBuffer := null, null;
      isBuffer0 := false;
      new;
      assert buffer0[..] == Empty(n);
      assert buffer1[..] == Empty(n);
    }

    /** Paints the whole image black, then makes alive (and paints white) every interior
        cell of buffer1 whose seed is set. */
    method Init(seed: seq<bool>)
      requires Valid() && |seed| == n * n
      modifies buffer1, image
      ensures Valid()
      ensures buffer1[..] == Seeded(n, old(buffer1[..]), seed)
      ensures image[..] == SeedImage(n, seed)
    {
      ghost var other, start := buffer0[..], buffer1[..];
      forall i | 0 <= i < image.Length {
        image[i] := Black;
      }
      ghost var black := image[..];
      ghost var seeded, picture := Seeded(n, start, seed), SeedImage(n, seed);
      BlendStart(n, seeded, start);
      BlendStart(n, picture, black);
      for x := 1 to n - 1
        invariant buffer1[..] == Blend(n, seeded, start, x, 1)
        invariant image[..] == Blend(n, picture, black, x, 1)
      {
        for y := 1 to n - 1
          invariant buffer1[..] == Blend(n, seeded, start, x, y)
          invariant image[..] == Blend(n, picture, black, x, y)
        {
          BlendStep(n, seeded, start, x, y);
          BlendStep(n, picture, black, x, y);
          if At(n, seed, x, y) {
            SetAtIndex(buffer1, n, x, y, true);
            SetPixel(image, n, x, y, White);
          }
        }
        BlendRow(n, seeded, start, x);
        BlendRow(n, picture, black, x);
      }
      BlendEnd(n, seeded, start);
      BlendEnd(n, picture, black);
      SeededKeepsBorder(n, start, seed);
      assert buffer0[..] == other;
    }

    /** Computes the next generation of every interior cell from the readable buffer into
        the writable one, patches the image where a cell died or was born, and swaps the
        roles of the two buffers. */
    method Update()
      requires Valid()
      modifies this, Writable(), image
      ensures Valid()
      ensures isBuffer0 == !old(isBuffer0)
      ensures currentBuffer == old(Writable()) && previousBuffer == old(Readable())
      ensures Readable() == old(Writable()) && Writable() == old(Readable())
      ensures Readable()[..] == Advance(n, old(Readable()[..]), old(Writable()[..]))
      ensures Readable()[..] == Next(n, old(Readable()[..]))
      ensures Writable()[..] == old(Readable()[..])
      ensures image[..] == Repaint(n, old(image[..]), old(Readable()[..]))
      ensures Mirrors(n, old(image[..]), old(Readable()[..])) ==> Mirrors(n, image[..], Readable()[..])
    {
      var current: array<bool>, previous: array<bool>;
      if isBuffer0 {
        current, previous := buffer1, buffer0;
      } else {
        current, previous := buffer0, buffer1;
      }
      currentBuffer, previousBuffer := current, previous;
      ghost var g, w, img := previous[..], current[..], image[..];
      UpdateInterior(previous, current, image, n);
      assert previous[..] == g;
      isBuffer0 := !isBuffer0;
      AdvanceIsNext(n, g, w);
      if Mirrors(n, img, g) {
        RepaintKeepsMirror(n, img, g, w);
      }
    }
  }

  /** The host's life cycle: create a zero-valued game, seed it, then call Update once
      per tick. Whatever the number of ticks, the readable buffer holds that many
      generations of the seeded grid and the image shows it. */
  method RunGenerations(n: Side, seed: seq<bool>, ticks: nat) returns (game: Game)
    requires |seed| == n * n
    ensures game.Valid() && game.n == n
    ensures game.Readable()[..] == Generations(n, Seeded(n, Empty(n), seed), ticks)
    ensures Mirrors(n, game.image[..], game.Readable()[..])
  {
    game := new Game(n);
    game.Init(seed);
    SeedImageMirrors(n, seed);
    for k := 0 to ticks
      invariant game.Valid() && game.n == n
      invariant fresh(game.buffer0) && fresh(game.buffer1) && fresh(game.image)
      invariant game.Readable()[..] == Generations(n, Seeded(n, Empty(n), seed), k)
      invariant Mirrors(n, game.image[..], game.Readable()[..])
    {
      game.Update();
    }
  }
}
