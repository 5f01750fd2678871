# life-go in Dafny

A model of the simulation engine of life-go. It is a bounded, non-wrapping Conway's Game of Life with rule B3/S23 on a square grid of side `gameSize`.

The engine keeps two flat boolean buffers of `gameSize * gameSize` cells, addressed row-major as `x * gameSize + y`. A flag, `isBuffer0`, says which buffer holds the last finished generation. Each `Update`:

- reads that buffer;
- writes the next generation of every interior cell into the other buffer;
- patches the picture of the grid where a cell died or was born;
- flips the flag.

`Init` paints the picture black, then makes each interior cell of `buffer1` alive at random and paints it white.

The project has two modules:

- `LifeRules` (`life.dfy`) is the pure specification. It holds:
  - the row-major index and its inverse;
  - the neighbour count and the life rule;
  - one generation as a function on sequences (`Advance`, `Next`) and `k` generations (`Generations`);
  - the seeded buffer and the seeded picture;
  - the picture patch (`Repaint`) and the "picture shows the grid" invariant (`Mirrors`);
  - two classic patterns proved against the rule: the block still life and the period-two blinker.
- `LifeGame` (`game.dfy`) is the imperative engine. It holds:
  - `GetAtIndex`, `SetAtIndex` and `GetNumLivingNeighbors` over arrays;
  - the `Game` class with its two buffer arrays, the two role pointers, the picture array and the flag;
  - the methods `Init` and `Update`, whose nested loops are proved against the functions of `LifeRules`.

The grid side is the symbolic `Side` (any `n >= 3`) instead of the program's 600. The random choice per cell is a caller-supplied `seed: seq<bool>`, read at the cell's flat index.

The picture is an `array<Colour>`:

- `Transparent` is a freshly created image;
- `Black` is the dead colour;
- `White` is the alive colour.

Pixel `(x, y)` is stored at the same flat index as cell `(x, y)`.

The loops of `Update` are proved against a ghost `Blend`, which is the buffer (or picture) as far as the row-major sweep has got. One generation is therefore the pure function `Advance` of the snapshot that was read. Sweep order cannot matter, because every read goes to the other buffer.

## Model

| member | source | states |
|---|---|---|
| LifeRules.Index | main.go:35-41 | the flat index `x * gameSize + y` of an in-grid cell is below `gameSize * gameSize`, and its row and column give back `x` and `y` |
| LifeRules.IndexIsProduct | main.go:35-41 | the flat index of an in-grid cell is exactly `x * gameSize + y` |
| LifeRules.IndexInjective | main.go:35-41 | two in-grid cells share a flat index exactly when they are the same cell |
| LifeRules.Coords | main.go:35-41 | every flat index in the buffer is the index of exactly one in-grid cell (inverse of `Index`) |
| LifeRules.NeighborCount | main.go:43-53 | the number of live Moore neighbours of an interior cell is at most 8 |
| LifeRules.NeighborCountIgnoresCentre | main.go:47 | changing the cell itself never changes its neighbour count |
| LifeRules.Rule | main.go:82-96 | the next state is alive exactly when the count is 3, or when the cell is alive and the count is 2 |
| LifeRules.Advance | main.go:79-98 | after one sweep, every interior cell of the write buffer is the rule applied to the read buffer; every border cell keeps what the write buffer held |
| LifeRules.AdvanceIsNext | main.go:72-98 | with dead borders in both buffers, the write buffer's result does not depend on its old contents: it is the next generation of the read buffer, whose border is still dead |
| LifeRules.GenerationsKeepBorder | main.go:79-80 | however many generations pass, no border cell changes |
| LifeRules.Seeded | main.go:57-63 | after seeding, an in-grid cell is alive exactly when it is interior with its seed set or it was alive before |
| LifeRules.Empty | main.go:27-28 | a zero-valued buffer has every cell dead |
| LifeRules.SeededKeepsBorder | main.go:57-58 | seeding leaves every border cell as it was, so a dead border stays dead |
| LifeRules.SeededEmpty | main.go:55-64 | seeding an empty buffer gives a dead border and an interior equal to the seed |
| LifeRules.SeedImage | main.go:56-61 | after Init the picture is white exactly at the interior cells whose seed is set, and black everywhere else |
| LifeRules.SeedImageMirrors | main.go:55-64 | the picture Init paints shows the buffer Init seeds |
| LifeRules.Repaint | main.go:82-96 | a pixel changes only at an interior cell whose state changes, and then takes the colour of the new state |
| LifeRules.RepaintKeepsMirror | main.go:82-96 | if the picture showed the read buffer before a generation, the patched picture shows the written buffer after it |
| LifeRules.BlockIsStill | main.go:79-98 | a lone 2 x 2 block is its own next generation, wherever it lies |
| LifeRules.BlockStaysStill | main.go:79-98 | a lone 2 x 2 block stays unchanged however many generations pass |
| LifeRules.BlinkerTurns | main.go:79-98 | a blinker lying along x turns into one along y |
| LifeRules.BlinkerTurnsBack | main.go:79-98 | a blinker lying along y turns back into one along x |
| LifeRules.BlinkerPeriodTwo | main.go:79-98 | two generations bring a blinker back to where it started |
| LifeGame.GetAtIndex | main.go:35-37 | reading flat index `x * n + y` of the array gives cell `(x, y)` of the buffer |
| LifeGame.SetAtIndex | main.go:39-41 | after writing cell `(x, y)`, reading it gives the new value, and every other cell is unchanged |
| LifeGame.SetPixel | main.go:61 | setting pixel `(x, y)` changes that pixel and no other |
| LifeGame.SquareScanIsNeighborCount | main.go:45-51 | scanning the 3 x 3 square in loop order while skipping the centre counts exactly the eight Moore neighbours |
| LifeGame.GetNumLivingNeighbors | main.go:43-53 | the double loop returns the Moore neighbour count of the interior cell, a number in [0, 8] |
| LifeGame.Blend | main.go:79-80 | the state the row-major sweep leaves when it reaches `(x, y)`: visited interior cells are done, the rest are untouched |
| LifeGame.BlendStart | main.go:79-80 | before the sweep starts nothing has changed |
| LifeGame.BlendStep | main.go:80 | visiting one interior cell changes that cell only |
| LifeGame.BlendRow | main.go:79-80 | the end of one interior row is the start of the next |
| LifeGame.BlendEnd | main.go:79-80 | once every interior row is done, the whole interior holds its new value and the border its old one |
| LifeGame.UpdateInterior | main.go:79-98 | the write buffer ends as the next generation of the read buffer with its own border kept; the picture ends patched at the cells that died or were born |
| LifeGame.Game.constructor | main.go:112-113 | a zero-valued game: both buffers dead, a transparent picture, flag false, no role pointers yet |
| LifeGame.Game.Init | main.go:55-65 | only `buffer1` and the picture change: `buffer1` becomes the seeded buffer and the picture the seeded picture; the dead borders are kept |
| LifeGame.Game.Update | main.go:71-102 | the buffer that was read stays unchanged and becomes the write target; the other holds the next generation; the role pointers and flag flip; the picture is patched and keeps showing the readable buffer |
| LifeGame.RunGenerations | main.go:109-118 | create, seed, then run `ticks` updates: the readable buffer is generation `ticks` of the seeded grid, and the picture shows it |

## Left out

- The Ebiten window, the host game loop's scheduling, `Draw` and `Layout`. These are foreign-library I/O and rendering. `RunGenerations` stands for the host calling `Update` once per tick; `Draw` only reads the picture.
- `ebiten.ActualTPS` and `DebugPrint`. These are a floating-point measurement and a text overlay.
- `rand.Intn`. The random choice per interior cell is the caller-supplied `seed` sequence.
- Real colours and `ebiten.Image` pixel coordinates. The picture is an abstract three-colour array indexed like the buffers. The three neighbour-count colours are never used by the program.
- The concrete sizes 600 and 800. The side is any `n >= 3`.
- The `error` result of `Update`. It is always `nil`.
- Go's fixed-width `int`. No index in the program can overflow it: the largest is below 600 * 600.
- `buffer0`, `buffer1` and the picture are modelled as three distinct arrays held by the game, where Go embeds the buffers in the struct. The role pointers refer to those arrays, so `currentBuffer` and `previousBuffer` alias them just as in Go.
- LifeGame.GetAtIndex: requires in-grid coordinates. Go accepts any pair whose flat index is inside the array and panics otherwise. Every call site passes in-grid coordinates.
- LifeGame.SetAtIndex: requires in-grid coordinates, for the same reason as `GetAtIndex`.
- LifeGame.GetNumLivingNeighbors: requires an interior cell. Go's only caller passes interior cells. For a border cell the Go reads would run into the neighbouring row or out of the array.
- LifeGame.UpdateInterior: the sweep of `Update` (main.go:79-98) is a method of its own that `Update` calls at the same point, so that its proof stays small. The statements and loops are those of Go's `Update`.
